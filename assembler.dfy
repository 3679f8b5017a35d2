/**
 * The paragraph assembler of the batch handler: for every stored image of
 * a batch, in order, run the OCR on it and append its paragraphs to one
 * growing list; an image that fails is rendered as an error paragraph and
 * the loop goes on with the next one.
 *
 * The OCR service is a parameter: it takes the base64 image data and a
 * MIME type and either returns the extracted text or fails with a message.
 */
module Assembler {
  import opened Wrappers
  import opened JsString
  import opened Blocks
  import opened Lines

  /** A stored image record: `data` and `contentType` may be missing. */
  datatype ImageDoc = ImageDoc(filename: string, data: Option<string>, contentType: Option<string>)

  datatype OcrResult = Extracted(text: string) | Failed(message: string)

  /** The OCR call: (base64 data, MIME type) to extracted text or an error message. */
  type Ocr = (string, string) -> OcrResult

  /** JavaScript truthiness of an optional string field: missing and "" are both false. */
  predicate Present(field: Option<string>) {
    field.Some? && field.value != ""
  }

  const DefaultContentType: string := "image/jpeg"

  /** The record after the content-type fallback: a missing type becomes `image/jpeg`. */
  function WithContentType(doc: ImageDoc): (d: ImageDoc)
    ensures Present(d.contentType)
    ensures d.filename == doc.filename && d.data == doc.data
    ensures Present(doc.contentType) ==> d == doc
    ensures !Present(doc.contentType) ==> d.contentType == Some(DefaultContentType)
  {
    if Present(doc.contentType) then doc else doc.(contentType := Some(DefaultContentType))
  }

  /** Applying the fallback a second time changes nothing. */
  lemma WithContentTypeIdempotent(doc: ImageDoc)
    ensures WithContentType(WithContentType(doc)) == WithContentType(doc)
  {
  }

  function NoDataMessage(filename: string): string {
    "No data found for image: " + filename
  }

  /**
   * What processing one image yields: its OCR text, or the message of the
   * error it raised. Without data the OCR is not called and the error names
   * the file; with data the OCR receives that data and a content type that
   * is always present, the record's own or the fallback.
   */
  function Attempt(doc: ImageDoc, ocr: Ocr): (r: OcrResult)
    ensures !Present(doc.data) ==> r == Failed(NoDataMessage(doc.filename))
    ensures Present(doc.data) ==>
      var sent := AfterAttempt(doc);
      Present(sent.contentType) && sent.data == doc.data && r == ocr(sent.data.value, sent.contentType.value)
  {
    if !Present(doc.data) then Failed(NoDataMessage(doc.filename))
    else ocr(doc.data.value, WithContentType(doc).contentType.value)
  }

  /** The record as it stands after its iteration: the fallback runs only once the data check passed. */
  function AfterAttempt(doc: ImageDoc): (d: ImageDoc)
    ensures d.filename == doc.filename && d.data == doc.data
    ensures Present(doc.data) ==> Present(d.contentType)
    ensures !Present(doc.data) || Present(doc.contentType) ==> d == doc
    ensures Present(doc.data) && !Present(doc.contentType) ==> d.contentType == Some(DefaultContentType)
  {
    if Present(doc.data) then WithContentType(doc) else doc
  }

  /** The header text of the image at 0-based position `index`. */
  function PageTitle(index: nat, filename: string): string {
    "--- Page " + NatToDecimal(index + 1) + ": " + filename + " ---"
  }

  /** A header names the image's 1-based page number and then its file name. */
  lemma PageTitleParts(index: nat, filename: string)
    ensures var t := PageTitle(index, filename); var digits := NatToDecimal(index + 1);
      && |t| == 15 + |digits| + |filename|
      && "--- Page " <= t && t[9..9 + |digits|] == digits && t[9 + |digits|] == ':' && t[10 + |digits|] == ' '
      && t[|t| - 4 - |filename|..|t| - 4] == filename && t[|t| - 4..] == " ---"
  {
    var digits := NatToDecimal(index + 1);
    var t := PageTitle(index, filename);
    assert t == "--- Page " + (digits + (": " + filename + " ---"));
    assert t == ("--- Page " + digits + ": ") + filename + " ---";
  }

  /** The text of the error paragraph of a failed image. */
  function ErrorText(filename: string, message: string): string {
    "--- Error processing " + filename + ": " + message + " ---"
  }

  /** An error paragraph names the file and then the error's message. */
  lemma ErrorTextParts(filename: string, message: string)
    ensures var t := ErrorText(filename, message);
      && |t| == 27 + |filename| + |message|
      && "--- Error processing " <= t && t[21..21 + |filename|] == filename
      && t[21 + |filename|..23 + |filename|] == ": "
      && t[|t| - 4 - |message|..|t| - 4] == message && t[|t| - 4..] == " ---"
  {
    var t := ErrorText(filename, message);
    assert t == "--- Error processing " + (filename + (": " + message + " ---"));
    assert t == ("--- Error processing " + filename + ": ") + message + " ---";
  }

  /** The paragraphs of a page: header, spacer, the body's paragraphs, two spacers. */
  function PageBlocks(title: string, body: seq<Block>): seq<Block> {
    [Header(title), Spacer] + body + [Spacer, Spacer]
  }

  lemma PageBlocksShape(title: string, body: seq<Block>)
    ensures var blocks := PageBlocks(title, body);
      && |blocks| == |body| + 4 && blocks[0] == Header(title) && blocks[1] == Spacer
      && blocks[2..|body| + 2] == body && blocks[|body| + 2..] == [Spacer, Spacer]
  {
    var blocks := PageBlocks(title, body);
    assert blocks[2..|body| + 2] == body;
    assert blocks[|body| + 2..] == [Spacer, Spacer];
  }

  /** The paragraphs for the image at 0-based position `index`, given what processing it yielded. */
  function OutcomeBlocks(index: nat, filename: string, outcome: OcrResult): seq<Block> {
    match outcome
    case Extracted(text) =>
      PageBlocks(PageTitle(index, filename), LineBlocks(PrepareLines(text)))
    case Failed(message) =>
      [Error(ErrorText(filename, message)), Spacer]
  }

  /**
   * Every image gives at least two paragraphs and ends with a spacer; it
   * opens with a header exactly when its text was extracted and with an
   * error paragraph exactly when it failed, and then gives only two.
   */
  lemma OutcomeBlocksShape(index: nat, filename: string, outcome: OcrResult)
    ensures var r := OutcomeBlocks(index, filename, outcome);
      && |r| >= 2 && r[|r| - 1] == Spacer
      && (r[0].Header? <==> outcome.Extracted?)
      && (r[0].Error? <==> outcome.Failed?)
      && (outcome.Failed? ==> |r| == 2)
  {
  }

  /** The paragraphs contributed by the image at 0-based position `index`. */
  function ImageBlocks(index: nat, doc: ImageDoc, ocr: Ocr): seq<Block> {
    OutcomeBlocks(index, doc.filename, Attempt(doc, ocr))
  }

  /** The whole paragraph list for a batch: the images' paragraphs, one image after another. */
  function Document(images: seq<ImageDoc>, ocr: Ocr): (r: seq<Block>)
    decreases |images|
  {
    if |images| == 0 then []
    else Document(images[..|images| - 1], ocr) + ImageBlocks(|images| - 1, images[|images| - 1], ocr)
  }

  /**
   * A successful image gives a bold header naming its 1-based page and file,
   * one spacer, one paragraph per prepared line and two spacers: n lines give
   * n + 4 paragraphs.
   */
  lemma SuccessBlocks(index: nat, doc: ImageDoc, ocr: Ocr, text: string)
    requires Attempt(doc, ocr) == Extracted(text)
    ensures |ImageBlocks(index, doc, ocr)| == |PrepareLines(text)| + 4
    ensures ImageBlocks(index, doc, ocr)[0] == Header(PageTitle(index, doc.filename))
    ensures ImageBlocks(index, doc, ocr)[1] == Spacer
    ensures forall k :: 0 <= k < |PrepareLines(text)| ==>
      ImageBlocks(index, doc, ocr)[2 + k] == ClassifyLine(PrepareLines(text)[k])
    ensures ImageBlocks(index, doc, ocr)[|PrepareLines(text)| + 2..] == [Spacer, Spacer]
  {
    var lines := PrepareLines(text);
    var body := LineBlocks(lines);
    var blocks := ImageBlocks(index, doc, ocr);
    assert blocks == PageBlocks(PageTitle(index, doc.filename), body);
    PageBlocksShape(PageTitle(index, doc.filename), body);
    forall k | 0 <= k < |lines| ensures blocks[2 + k] == ClassifyLine(lines[k]) {
      assert blocks[2 + k] == blocks[2..|body| + 2][k];
    }
  }

  /** A failed image gives one error paragraph naming the file and the message, then one spacer. */
  lemma FailureBlocks(index: nat, doc: ImageDoc, ocr: Ocr, message: string)
    requires Attempt(doc, ocr) == Failed(message)
    ensures ImageBlocks(index, doc, ocr)
      == [Error("--- Error processing " + doc.filename + ": " + message + " ---"), Spacer]
  {
  }

  /** The error paragraph of a failed image is drawn as one plain run in red. */
  lemma FailureRunsRed(index: nat, doc: ImageDoc, ocr: Ocr, message: string)
    requires Attempt(doc, ocr) == Failed(message)
    ensures Runs(ImageBlocks(index, doc, ocr)[0]) == [Run(ErrorText(doc.filename, message), false, Hex("FF0000"))]
  {
    FailureBlocks(index, doc, ocr, message);
  }

  /** The page number in a header is the image's 1-based position, failed images included. */
  lemma PageNumberIsPosition(index: nat, doc: ImageDoc, ocr: Ocr)
    requires Attempt(doc, ocr).Extracted?
    ensures ImageBlocks(index, doc, ocr)[0].Header?
    ensures var t := ImageBlocks(index, doc, ocr)[0].text;
      var digits := NatToDecimal(index + 1);
      |t| > 9 + |digits| && t[9..9 + |digits|] == digits && t[9 + |digits|] == ':'
      && DecimalValue(digits) == index + 1
  {
    assert ImageBlocks(index, doc, ocr)[0] == Header(PageTitle(index, doc.filename));
    PageTitleParts(index, doc.filename);
    DecimalRoundTrip(index + 1);
  }

  /** Processing more images only appends: the paragraphs of a prefix of the batch are a prefix. */
  lemma {:induction false} DocumentPrefix(images: seq<ImageDoc>, k: nat, ocr: Ocr)
    requires k <= |images|
    ensures |Document(images[..k], ocr)| <= |Document(images, ocr)|
    ensures Document(images, ocr)[..|Document(images[..k], ocr)|] == Document(images[..k], ocr)
    decreases |images|
  {
    if k < |images| {
      var init := images[..|images| - 1];
      DocumentPrefix(init, k, ocr);
      assert init[..k] == images[..k];
    } else {
      assert images[..k] == images;
    }
  }

  /**
   * The paragraphs of image j sit, unchanged whatever the other images do,
   * right after those of images 0..j-1, and together they begin the document.
   */
  lemma ImageBlocksInPlace(images: seq<ImageDoc>, j: nat, ocr: Ocr)
    requires j < |images|
    ensures Document(images[..j + 1], ocr) == Document(images[..j], ocr) + ImageBlocks(j, images[j], ocr)
    ensures |Document(images[..j + 1], ocr)| <= |Document(images, ocr)|
    ensures Document(images, ocr)[..|Document(images[..j + 1], ocr)|] == Document(images[..j + 1], ocr)
  {
    DocumentSnoc(images, j, ocr);
    DocumentPrefix(images, j + 1, ocr);
  }

  /** The paragraphs of the first j + 1 images: those of the first j, then those of image j. */
  lemma DocumentSnoc(images: seq<ImageDoc>, j: nat, ocr: Ocr)
    requires j < |images|
    ensures Document(images[..j + 1], ocr) == Document(images[..j], ocr) + ImageBlocks(j, images[j], ocr)
  {
    var pre := images[..j + 1];
    assert pre[..j] == images[..j] && pre[j] == images[j];
  }


  /** At least a header or error paragraph and a spacer per image; nothing for an empty batch. */
  lemma {:induction false} DocumentLength(images: seq<ImageDoc>, ocr: Ocr)
    ensures |Document(images, ocr)| >= 2 * |images|
    ensures images == [] <==> Document(images, ocr) == []
    decreases |images|
  {
    if |images| > 0 {
      var n := |images| - 1;
      DocumentLength(images[..n], ocr);
      OutcomeBlocksShape(n, images[n].filename, Attempt(images[n], ocr));
    }
  }

  function CountErrors(blocks: seq<Block>): nat {
    if |blocks| == 0 then 0 else (if blocks[0].Error? then 1 else 0) + CountErrors(blocks[1..])
  }

  function CountHeaders(blocks: seq<Block>): nat {
    if |blocks| == 0 then 0 else (if blocks[0].Header? then 1 else 0) + CountHeaders(blocks[1..])
  }

  /** How many images of the batch fail. */
  function CountFailures(images: seq<ImageDoc>, ocr: Ocr): nat {
    if |images| == 0 then 0
    else (if Attempt(images[0], ocr).Failed? then 1 else 0) + CountFailures(images[1..], ocr)
  }

  lemma {:induction false} CountsOfConcat(a: seq<Block>, b: seq<Block>)
    ensures CountErrors(a + b) == CountErrors(a) + CountErrors(b)
    ensures CountHeaders(a + b) == CountHeaders(a) + CountHeaders(b)
  {
    if |a| > 0 {
      CountsOfConcat(a[1..], b);
      assert (a + b)[1..] == a[1..] + b;
    } else {
      assert a + b == b;
    }
  }

  lemma {:induction false} CountFailuresSnoc(images: seq<ImageDoc>, ocr: Ocr)
    requires |images| > 0
    ensures CountFailures(images, ocr)
      == CountFailures(images[..|images| - 1], ocr) + (if Attempt(images[|images| - 1], ocr).Failed? then 1 else 0)
  {
    if |images| > 1 {
      CountFailuresSnoc(images[1..], ocr);
      assert images[1..][..|images| - 2] == images[..|images| - 1][1..];
    }
  }

  /** A list with no error and no header paragraph counts none of either. */
  lemma {:induction false} ContentCounts(blocks: seq<Block>)
    requires forall k :: 0 <= k < |blocks| ==> !blocks[k].Error? && !blocks[k].Header?
    ensures CountErrors(blocks) == 0 && CountHeaders(blocks) == 0
  {
    if |blocks| > 0 {
      ContentCounts(blocks[1..]);
    }
  }

  lemma LineBlocksCounts(lines: seq<string>)
    ensures CountErrors(LineBlocks(lines)) == 0 && CountHeaders(LineBlocks(lines)) == 0
  {
    ContentCounts(LineBlocks(lines));
  }

  lemma ImageBlocksCounts(index: nat, doc: ImageDoc, ocr: Ocr)
    ensures CountErrors(ImageBlocks(index, doc, ocr)) == (if Attempt(doc, ocr).Failed? then 1 else 0)
    ensures CountHeaders(ImageBlocks(index, doc, ocr)) == (if Attempt(doc, ocr).Failed? then 0 else 1)
  {
    match Attempt(doc, ocr)
    case Extracted(text) =>
      var body := LineBlocks(PrepareLines(text));
      LineBlocksCounts(PrepareLines(text));
      CountsOfConcat([Header(PageTitle(index, doc.filename)), Spacer], body);
      CountsOfConcat([Header(PageTitle(index, doc.filename)), Spacer] + body, [Spacer, Spacer]);
    case Failed(message) =>
      var blocks := ImageBlocks(index, doc, ocr);
      assert blocks[1..] == [Spacer] && [Spacer][1..] == [];
      assert CountErrors([Spacer]) == 0 && CountHeaders([Spacer]) == 0;
  }

  /**
   * The document holds exactly one error paragraph per failed image and
   * exactly one header per image that succeeded: a failure never removes
   * or adds anything for the other images.
   */
  lemma {:induction false} ErrorsAndHeadersCount(images: seq<ImageDoc>, ocr: Ocr)
    ensures CountErrors(Document(images, ocr)) == CountFailures(images, ocr)
    ensures CountHeaders(Document(images, ocr)) == |images| - CountFailures(images, ocr)
    decreases |images|
  {
    if |images| > 0 {
      var n := |images| - 1;
      ErrorsAndHeadersCount(images[..n], ocr);
      CountsOfConcat(Document(images[..n], ocr), ImageBlocks(n, images[n], ocr));
      ImageBlocksCounts(n, images[n], ocr);
      CountFailuresSnoc(images, ocr);
      if Attempt(images[n], ocr).Failed? {
        assert CountFailures(images, ocr) == CountFailures(images[..n], ocr) + 1;
      } else {
        assert CountFailures(images, ocr) == CountFailures(images[..n], ocr);
      }
    }
  }

  /** The inner loop of the handler: one paragraph appended per prepared line. */
  method AppendLines(paragraphs: seq<Block>, lines: seq<string>) returns (out: seq<Block>)
    ensures out == paragraphs + LineBlocks(lines)
  {
    out := paragraphs;
    for j := 0 to |lines|
      invariant out == paragraphs + LineBlocks(lines[..j])
    {
      assert LineBlocks(lines[..j + 1]) == LineBlocks(lines[..j]) + [ClassifyLine(lines[j])];
      out := out + [ClassifyLine(lines[j])];
    }
    assert lines[..|lines|] == lines;
  }

  /**
   * The try block of one iteration up to the OCR call: the data check and
   * the content-type fallback. Yields the OCR outcome, or the message of
   * the error it throws, and the record as it is afterwards.
   */
  method RunOcr(imageDoc: ImageDoc, ocr: Ocr) returns (outcome: OcrResult, doc: ImageDoc)
    ensures outcome == Attempt(imageDoc, ocr)
    ensures doc == AfterAttempt(imageDoc)
  {
    doc := imageDoc;
    if !Present(doc.data) {
      outcome := Failed(NoDataMessage(doc.filename));
    } else {
      if !Present(doc.contentType) {
        doc := doc.(contentType := Some(DefaultContentType));
      }
      outcome := ocr(doc.data.value, doc.contentType.value);
    }
  }

  /**
   * The rest of one iteration: on success the header, a spacer, the lines
   * and two spacers; in the catch block the error paragraph and a spacer.
   */
  method AppendOutcome(paragraphs: seq<Block>, index: nat, filename: string, outcome: OcrResult)
    returns (out: seq<Block>)
    ensures out == paragraphs + OutcomeBlocks(index, filename, outcome)
  {
    match outcome {
      case Extracted(extracted) =>
        var head := [Header(PageTitle(index, filename)), Spacer];
        out := paragraphs + head;
        out := AppendLines(out, PrepareLines(extracted));
        out := out + [Spacer, Spacer];
        AppendAssociative(paragraphs, head, LineBlocks(PrepareLines(extracted)), [Spacer, Spacer]);
      case Failed(message) =>
        out := paragraphs + [Error(ErrorText(filename, message)), Spacer];
    }
  }

  lemma AppendAssociative<T>(p: seq<T>, a: seq<T>, b: seq<T>, c: seq<T>)
    ensures p + a + b + c == p + (a + b + c)
  {
  }

  /**
   * The handler's loop over the batch: `paragraphs` grows by appending
   * only, image after image; the image records come back with the
   * content-type fallback applied to those whose data was present.
   */
  method Assemble(images: seq<ImageDoc>, ocr: Ocr) returns (paragraphs: seq<Block>, docs: seq<ImageDoc>)
    ensures paragraphs == Document(images, ocr)
    ensures |docs| == |images|
    ensures forall k :: 0 <= k < |images| ==> docs[k] == AfterAttempt(images[k])
  {
    paragraphs := [];
    docs := images;
    var index := 0;
    while index < |images|
      invariant 0 <= index <= |images|
      invariant paragraphs == Document(images[..index], ocr)
      invariant |docs| == |images|
      invariant forall k :: 0 <= k < index ==> docs[k] == AfterAttempt(images[k])
      invariant forall k :: index <= k < |images| ==> docs[k] == images[k]
    {
      var outcome, doc := RunOcr(docs[index], ocr);
      assert outcome == Attempt(images[index], ocr) && doc.filename == images[index].filename;
      paragraphs := AppendOutcome(paragraphs, index, doc.filename, outcome);
      docs := docs[index := doc];
      DocumentSnoc(images, index, ocr);
      index := index + 1;
    }
    assert images[..index] == images;
  }

  const NoImagesInBatch: string := "No images found for this batch ID"
  const AllImagesProcessed: string := "All images in this batch have already been processed"

  /** Why a batch with no unprocessed images cannot be processed, from its two record counts. */
  function EmptyBatchError(totalInBatch: nat, processedInBatch: nat): (message: string)
    ensures message == NoImagesInBatch <==> totalInBatch == 0
    ensures message == AllImagesProcessed <==> totalInBatch > 0
  {
    if totalInBatch == 0 then NoImagesInBatch else AllImagesProcessed
  }

  /**
   * One batch request from the unprocessed images (already sorted by
   * their `order` field) and the batch's record counts: an error when nothing is left
   * to process, otherwise the assembled paragraphs.
   */
  method ProcessBatch(images: seq<ImageDoc>, totalInBatch: nat, processedInBatch: nat, ocr: Ocr)
    returns (r: Result<seq<Block>, string>)
    ensures images == [] ==> r == Failure(EmptyBatchError(totalInBatch, processedInBatch))
    ensures images != [] ==> r.Success? && r.value == Document(images, ocr) && |r.value| >= 2 * |images|
  {
    if |images| == 0 {
      return Failure(EmptyBatchError(totalInBatch, processedInBatch));
    }
    var paragraphs, _ := Assemble(images, ocr);
    DocumentLength(images, ocr);
    r := Success(paragraphs);
  }
}
