# terminal-based-ai: a verified model of the chat turn's data logic

The client is a terminal chat loop. It reads a line at a `>` prompt and
trims it. It wraps the line in a single-turn `generateContent` request for
the Gemini API and posts it. It then decodes the JSON reply and prints the
text of the first part of the first candidate between two newlines. Before
printing, every markdown code fence (three backticks) in that text is
turned into three single quotes, by `format_json`, so that the terminal
output cannot open or close a code block.

This project models the data logic of one turn as pure Dafny functions, and
proves what it guarantees:

- `strings.dfy`, module `Strings`: Rust's `str::replace` (`Replace`) with its
  left-to-right, non-overlapping matching, and `str::trim` (`TrimStart`,
  `TrimEnd`, `Trim`). The trims are parameterised by a whitespace predicate.
  `IsWhitespace` gives the Unicode White_Space set that `char::is_whitespace`
  accepts. `TrimmedAt` describes a trimmed slice independently of how it is
  computed, and `TrimUnique` shows it pins `Trim` down.
- `envelope.dfy`, module `Envelope`: the request and response structs of
  src/main.rs:10-51 as datatypes. The `i32` fields are the newtype `Int32`.
- `chat.dfy`, module `Chat`: `FormatJson` (src/main.rs:152-156), the request
  built from a prompt line (src/main.rs:82-89), and the printed output
  (src/main.rs:141-147).

Strings are sequences of Unicode scalar values, not UTF-8 bytes. The
pattern, the replacement and every whitespace character are whole
characters, so matching on characters gives the same result as Rust's
byte-level search.

The loop's input is trimmed with `trim` (src/main.rs:85), which strips
whitespace from both ends, so leading whitespace is removed as well as the
trailing newline.

## Model

| member | source | states |
|---|---|---|
| `Strings.Replace` | src/main.rs:153 | replacing a pattern by one of equal length keeps the length |
| `Strings.ReplaceEmptyPatternLength` | src/main.rs:153 | with an empty pattern the result has length `len + (len + 1) * m`, for an input of length `len` and a replacement of length `m` |
| `Strings.ReplaceEmptyPattern` | src/main.rs:153 | with an empty pattern and a replacement of length `m`, the replacement stands at index `k * (m + 1)` for every `k` up to the input's length, followed by the `k`-th character when there is one: the replacement is inserted at every character boundary |
| `Strings.ReplaceNoMatch` | src/main.rs:153 | replacing a non-empty pattern that does not occur returns the string unchanged |
| `Chat.FormatJson` | src/main.rs:152-156 | the formatted reply has exactly the length of the reply |
| `Chat.FormatJsonPointwise` | src/main.rs:153 | at every index the character is kept, or it is a backtick turned into a single quote; nothing but backticks ever changes |
| `Chat.FormatJsonNoFence` | src/main.rs:153 | no three consecutive backticks remain in the formatted reply |
| `Chat.FormatJsonIdempotent` | src/main.rs:153 | formatting a formatted reply changes nothing |
| `Chat.FormatJsonFixpoint` | src/main.rs:153 | formatting leaves a reply unchanged if and only if it holds no code fence |
| `Chat.FormatJsonRun` | src/main.rs:153 | a reply that is a single run of `3q + rem` backticks (`rem < 3`) becomes `3q` quotes then `rem` backticks: matching is left to right and non-overlapping |
| `Chat.FormatJsonSplit` | src/main.rs:153 | formatting a concatenation is the concatenation of the formatted pieces whenever the left piece ends, or the right piece starts, with something other than a backtick, so no fence straddles the cut |
| `Chat.FormatJsonSplitAround` | src/main.rs:153 | a middle piece with a non-backtick (or nothing) on each side is formatted on its own, as are the texts around it |
| `Chat.FormatJsonRunInText` | src/main.rs:153 | a maximal run of `3q + rem` backticks inside a reply becomes `3q` quotes then `rem` backticks, and the text around it is formatted independently |
| `Chat.FormatJsonExample` | src/main.rs:153 | "a" then four backticks becomes "a'''" then one backtick |
| `Strings.IsWhitespace` | src/main.rs:85 | a character is whitespace for `trim` if and only if its code point is in the Unicode White_Space set |
| `Strings.TrimStart` | src/main.rs:85 | the result is the suffix left after the longest whitespace prefix, and it does not start with whitespace |
| `Strings.TrimEnd` | src/main.rs:85 | the result is the prefix left before the longest whitespace suffix, and it does not end with whitespace |
| `Strings.Trim` | src/main.rs:85 | the result is a contiguous slice of the input, preceded and followed only by whitespace, and neither starting nor ending with whitespace |
| `Strings.TrimUnique` | src/main.rs:85 | any slice with those properties is exactly what `Trim` returns |
| `Strings.TrimIgnoresPadding` | src/main.rs:85 | whitespace added at either end of a line does not change its trimmed text |
| `Strings.TrimEmpty` | src/main.rs:85 | trimming gives the empty string if and only if every character is whitespace |
| `Strings.TrimIdempotent` | src/main.rs:85 | trimming a trimmed string changes nothing |
| `Strings.TrimFixpoint` | src/main.rs:85 | trimming leaves a string unchanged if and only if it is empty or neither end is whitespace |
| `Chat.BuildRequest` | src/main.rs:82-89 | the request has exactly one content, with role "user" and exactly one part, whose text is the line with its whitespace ends removed |
| `Chat.BuildRequestStable` | src/main.rs:82-89 | sending the text of a request again builds the same request |
| `Chat.BuildRequestIgnoresPadding` | src/main.rs:82-89 | lines that differ only by surrounding whitespace, the trailing newline of `read_line` included, build the same request |
| `Chat.RenderOutput` | src/main.rs:141-147 | output exists if and only if there is a first candidate and it has a first part; it is that text formatted between a leading and a trailing newline: two characters longer, with no code fence, and with only backticks changed, each to a quote |
| `Chat.RenderOutputVerbatim` | src/main.rs:141-147 | a reply with no code fence is printed verbatim between the two newlines |

## Left out

- The HTTPS client, the tokio runtime and the awaited POST (src/main.rs:53-58, 114-130): network I/O and async plumbing.
- Reading `AI_API_KEYS` via dotenv and `env::var`, and formatting the request URL (src/main.rs:55, 59-67): environment I/O.
- The prompt, `read_line`, the prints and flush, and the "thinking" spinner (src/main.rs:69-80, 95-147): terminal I/O. The loop in `main` itself is therefore not modelled; one turn's data logic is.
- JSON serialisation and deserialisation with serde_json (src/main.rs:91, 132): a foreign library. The model works on the envelope datatypes, not JSON bytes, so the request/response JSON round trip is not stated.
- The five "log to stderr, stop the spinner, continue" error branches (src/main.rs:93-138): control flow around I/O failures that carries no data.
- `Chat.RenderOutput`: where the source indexes `candidates[0]` or `parts[0]` out of bounds (src/main.rs:145), it does so after the leading newline has been printed (src/main.rs:142), and the panic ends the loop; the model returns `None` and does not model the panic or the newline printed before it.
- `finishReason`, `index`, `safetyRatings` and `usageMetadata` are in the datatypes, but no behaviour depends on them.
- `Strings.ReplaceEmptyPattern`, `Strings.ReplaceEmptyPatternLength`: the client never takes the empty-pattern branch of `Replace`, since src/main.rs:153 always passes the fixed pattern of three backticks; these lemmas describe `str::replace` itself.
- `Strings.IsWhitespace`: `char::is_whitespace` belongs to Rust's standard library, not to this repository; the predicate lists the Unicode White_Space characters it accepts.
