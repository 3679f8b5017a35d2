# OCR text to Word paragraphs: a Dafny model

The batch handler of this image-to-Word service (`api/process.js`) takes the
unprocessed images of a batch, sorted by their `order` field, sends each one to an OCR
model and turns the extracted text into the paragraphs of one Word
document. This project models that paragraph assembler and proves what it
produces:

- the OCR text of an image is split on newlines, every line is trimmed and
  blank lines are dropped;
- a line is a *label/value* line when it contains a colon and the text
  before the first colon is shorter than 50 (JavaScript `length`, that is
  UTF-16 code units); it becomes a bold key run `trim(label) + ":"` and a
  plain value run `" " + trim(rest)`, later colons kept in the value;
  every other line becomes one plain paragraph holding the line;
- a successful image gives a bold header `--- Page N: <file> ---` in colour
  2E74B5, one spacer, one paragraph per line and two spacers;
- an image without data, or whose OCR call fails, gives one red (FF0000)
  paragraph `--- Error processing <file>: <message> ---` and one spacer, and
  the loop goes on with the next image;
- an image's missing content type defaults to `image/jpeg` before the OCR
  call;
- an empty batch is answered with one of two messages chosen from the
  batch's record counts.

Modules, one per concern:

- `Wrappers` (`wrappers.dfy`): `Option` and `Result`.
- `JsString` (`js_string.dfy`): the JavaScript string primitives used:
  `trim` (ECMAScript white space and line terminators), `split`/`join` on one
  character, UTF-16 length, and the decimal rendering of the page number.
- `Blocks` (`blocks.dfy`): the paragraph variant `Header | Spacer |
  LabelValue | Plain | Error` and its text runs with bold and colour.
- `Lines` (`lines.dfy`): line preparation and line classification.
- `Assembler` (`assembler.dfy`): the per-image paragraphs, the whole
  document as a specification function `Document`, the handler's loops as
  methods proved equal to it, and the empty-batch check.

The OCR service is a parameter `Ocr = (data, mimeType) -> Extracted(text) |
Failed(message)`; a JavaScript exception raised for an image is modelled as
`Failed` with the exception's message.

Details of the code the model keeps:

- the value run keeps a leading space (`" " + value.trim()`), so `Name: Alice`
  gives the runs `"Name:"` and `" Alice"`;
- the header reads `--- Page N: <file> ---`, and N is the image's 1-based
  position in the batch: a failed image still uses up its page number;
- the error path emits an error paragraph **and one spacer**;
- there is no configuration: headers are always emitted and the label
  threshold is the constant 50.

## Model

| member | source | states |
|---|---|---|
| JsString.TrimStart | api/process.js:247 | the result is the longest suffix of the string that does not start with whitespace; everything cut off is whitespace |
| JsString.TrimEnd | api/process.js:247 | the result is the longest prefix that does not end with whitespace; everything cut off is whitespace |
| JsString.Trim | api/process.js:247 | the result is a slice of the input with only whitespace outside it, and neither starts nor ends with whitespace |
| JsString.TrimKeepsCharacters | api/process.js:247 | trimming introduces no character that was not in the input |
| JsString.TrimEmptyIff | api/process.js:247-248 | a string trims to the empty string exactly when it is all whitespace |
| JsString.TrimIdempotent | api/process.js:247 | trimming a trimmed string changes nothing |
| JsString.Split | api/process.js:246 | split always yields at least one piece and no piece contains the separator |
| JsString.JoinSplit | api/process.js:253-258 | joining the pieces of a split with the same separator gives back the string |
| JsString.FirstIndex | api/process.js:251 | the index found holds the character and no earlier position does |
| JsString.SplitAtFirst | api/process.js:251-258 | the first piece is the text before the first separator, and re-joining the other pieces is exactly the text after it, later separators included |
| JsString.Join | api/process.js:258 | joining no pieces gives the empty string; the result starts with the first piece, followed by the separator when there is a second piece |
| JsString.SplitAfterFirst | api/process.js:246 | a separator-free prefix followed by a separator becomes its own first piece, the rest is split independently |
| JsString.SplitWithoutSeparator | api/process.js:246 | a string without the separator splits into itself alone |
| JsString.Utf16Length | api/process.js:251 | the JavaScript length lies between the number of characters and twice that, and equals it exactly when all characters lie in the Basic Multilingual Plane |
| JsString.Utf16LengthAppend | api/process.js:251 | the JavaScript length of a concatenation is the sum of the lengths of its parts |
| JsString.NatToDecimal | api/process.js:231 | the page number text is a non-empty string of digits with no leading zero |
| JsString.DecimalRoundTrip | api/process.js:231 | reading the decimal text back gives the number |
| Lines.TrimAll | api/process.js:247 | the map gives one result per piece, and result k is the trim of piece k |
| Lines.KeepNonEmpty | api/process.js:248 | the filter result is no longer than its input, holds only non-empty elements of the input, and is the input itself when nothing in it is empty |
| Lines.PrepareLines | api/process.js:245-248 | there are no more prepared lines than newline-separated pieces, and none of them is empty |
| Lines.KeepNonEmptyExact | api/process.js:248 | the filter keeps an in-order subsequence whose multiset is the input's with every empty string removed; every kept element is non-empty |
| Lines.PreparedLinesClean | api/process.js:245-248 | every prepared line is non-empty, contains no newline and equals its own trim |
| Lines.PreparedLinesOrder | api/process.js:245-248 | the prepared lines are the trimmed pieces of the text in their original order, each non-empty one kept exactly once and every empty one dropped |
| Lines.BlankTextIff | api/process.js:245-248 | a text gives no lines exactly when it consists only of whitespace and newlines |
| Lines.SplitOfNonWhitespace | api/process.js:245-248 | a text with a character other than whitespace has a split piece that is not all whitespace, when the separator is whitespace |
| Lines.PieceOf | api/process.js:246 | every character of the text other than the separator lands in some piece of the split |
| Lines.ClassifyLineSpec | api/process.js:251-275 | a line without a colon is plain and unchanged; with one, it is label/value exactly when the text before the first colon is shorter than 50 UTF-16 units, with key run `trim(before) + ":"` and value run `" " + trim(after the first colon)`, otherwise plain and unchanged |
| Lines.ClassifyLine | api/process.js:251-275 | a line becomes a label/value or a plain paragraph; a plain one holds the line unchanged; a label/value one comes from a line with a colon, its key run ends in `:` and its value run starts with a space |
| Lines.LongLabelIsPlain | api/process.js:251 | a label of 50 or more characters makes the line plain: the threshold is exclusive |
| Lines.ShortLabelIsLabelValue | api/process.js:251-258 | a label of fewer than 50 characters from the Basic Multilingual Plane makes the line label/value |
| Lines.ClassifyKeyValue | api/process.js:251-258 | for a line `K:V` with no colon in K, a short K gives key `trim(K) + ":"` and value `" " + trim(V)`, a long K gives the whole line as plain text |
| Lines.LineBlocks | api/process.js:250-276 | exactly one paragraph per line |
| Lines.LineBlocksAreContent | api/process.js:250-276 | a line becomes a label/value paragraph or the plain paragraph of that very line, never a header, spacer or error |
| Blocks.Runs | api/process.js:227-295 | a label/value paragraph has two runs, the key then the value, a spacer one empty run, any other paragraph one run holding its text; only header runs and label keys are bold; every run of a header is in 2E74B5, of an error in FF0000, all others carry no colour |
| Assembler.WithContentType | api/process.js:200-203 | after the fallback the content type is present; a present one is left as it was, a missing one becomes `image/jpeg`; file name and data are untouched |
| Assembler.WithContentTypeIdempotent | api/process.js:200-203 | applying the fallback twice is applying it once |
| Assembler.Attempt | api/process.js:193-223 | without data the outcome is the error `No data found for image: <file>` and the OCR is not consulted; with data the OCR receives the record's data and a content type that is present, the record's own or the fallback |
| Assembler.AfterAttempt | api/process.js:195-203 | the iteration keeps file name and data; a record with data leaves it with a content type, `image/jpeg` when it had none; a record without data, or with a content type already, is left as it was |
| Assembler.PageTitleParts | api/process.js:231 | the header text starts with `--- Page `, the decimal page number, `:` and a space, ends with the file name and ` ---`, and is 15 characters longer than number and name together |
| Assembler.ErrorTextParts | api/process.js:289 | the error text starts with `--- Error processing `, the file name and `: `, ends with the message and ` ---`, and is 27 characters longer than name and message together |
| Assembler.PageBlocksShape | api/process.js:226-280 | a page is the header, a spacer, the body paragraphs unchanged, then exactly two spacers: four paragraphs more than the body |
| Assembler.OutcomeBlocksShape | api/process.js:226-296 | every image gives at least two paragraphs and ends with a spacer; it opens with a header exactly when its text was extracted, with an error paragraph exactly when it failed, and a failure gives exactly two |
| Assembler.SuccessBlocks | api/process.js:226-280 | a successful image with n prepared lines gives n + 4 paragraphs: the header `--- Page (i+1): file ---`, a spacer, the n line paragraphs in order, two spacers |
| Assembler.FailureBlocks | api/process.js:282-296 | a failed image gives exactly the paragraph `--- Error processing file: message ---` and one spacer |
| Assembler.FailureRunsRed | api/process.js:282-296 | the first paragraph of a failed image is one run holding the error text, not bold, in FF0000 |
| Assembler.PageNumberIsPosition | api/process.js:190-231 | an image's first paragraph is a header whose text holds, right after `--- Page `, the decimal digits of its 1-based position in the batch followed by `:` |
| Assembler.DocumentPrefix | api/process.js:187-297 | the paragraphs of the first k images are no longer than, and equal to the start of, the paragraphs of the batch: the list only grows at its end |
| Assembler.ImageBlocksInPlace | api/process.js:190-297 | the paragraphs of images 0..j are those of images 0..j-1 followed by those of image j, and together they begin the paragraphs of the whole batch, whatever the other images' outcomes |
| Assembler.DocumentSnoc | api/process.js:187-297 | the paragraphs of images 0..j are those of images 0..j-1 followed by exactly those of image j |
| Assembler.DocumentLength | api/process.js:187-297 | the document has at least two paragraphs per image and is empty exactly when the batch is |
| Assembler.ImageBlocksCounts | api/process.js:226-296 | an image contributes one error paragraph and no header when it fails, one header and no error otherwise |
| Assembler.ErrorsAndHeadersCount | api/process.js:190-297 | the document holds exactly one error paragraph per failed image and one header per successful one |
| Assembler.AppendLines | api/process.js:250-276 | the inner loop appends exactly the paragraphs of the lines, in order, to what was there |
| Assembler.RunOcr | api/process.js:193-223 | the data check and the content-type fallback yield the image's OCR outcome (or the "No data found" error) and leave the record as the fallback made it |
| Assembler.AppendOutcome | api/process.js:226-296 | the rest of an iteration appends exactly that image's paragraphs for its outcome, to what was there |
| Assembler.Assemble | api/process.js:187-297 | the loop over the batch builds exactly `Document(images)`, and every record whose data was present gets the content-type fallback |
| Assembler.EmptyBatchError | api/process.js:156-181 | "No images found for this batch ID" exactly when the batch has no record, "All images in this batch have already been processed" exactly when it has some |
| Assembler.ProcessBatch | api/process.js:156-297 | an empty list of unprocessed images gives the empty-batch error, otherwise the assembled document, with at least two paragraphs per image |

## Left out

- Database access (connection caching, the query for unprocessed images and its sort by `order`, the two counts, marking the batch processed, the delayed clean-up of old records): external I/O; the model receives the images already sorted and the counts as numbers.
- The OCR call to the hosted model, its prompt and model name: a network call, replaced by the `Ocr` parameter; an exception thrown by `result.response.text()` counts as `Failed`.
- Word serialization (`Document`, `Packer.toBuffer`), page margins, font size 28 of the header and the paragraph spacing values (200 after the header, 120 after a line): layout done by the document library; paragraphs stay abstract values with their runs, bold and colour.
- HTTP method and CORS handling, missing batch id and environment checks, the docx module loader, response headers and the top-level 500 response: transport plumbing.
- Logging of every step to the console: no effect on the paragraphs.
- An exception raised after the header of an image was pushed: with the OCR text a string, nothing in that part of the try block can throw, so partial pages followed by an error are not modelled.
- Assembler.Assemble: `imageDoc.contentType = 'image/jpeg'` mutates the record object in place; the model returns the updated records as values, so aliasing of the record elsewhere is not captured.
- JsString.Utf16Length: JavaScript strings are UTF-16 code units while Dafny characters are Unicode scalar values; a lone surrogate in the OCR text cannot be represented, and length is counted from the scalar values.
- A record whose file name is missing or not a string (JavaScript would print `undefined`): file names are strings in the model.
- `api/finalize.js`, `api/health.js`, `api/upload.js` and `server.js`: file-system checks, dependency probes, multipart upload and routing, all I/O.
