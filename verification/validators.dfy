/**
 * The request and content validators: the `%PDF` signature check, the MIME
 * allow-list, the required-files check, and the fence stripping done before
 * parsing a model's JSON answer.
 */
module Validators {
  import opened Wrappers
  import opened Errors
  import opened Strings

  newtype byte = b: int | 0 <= b < 256

  // ---------------------------------------------------------------------
  // validatePdfBuffer
  // ---------------------------------------------------------------------

  /** The four bytes every PDF file starts with: "%PDF". */
  const PdfMagic: seq<byte> := [0x25, 0x50, 0x44, 0x46]

  /**
   * How the UTF-8 decoding of a buffer looks to a comparison with an ASCII
   * literal: ASCII bytes decode to themselves, and every other byte ends up
   * in some non-ASCII character (shown here as U+FFFD).
   */
  function AsciiView(bytes: seq<byte>): (s: string)
    ensures |s| == |bytes|
  {
    seq(|bytes|, i requires 0 <= i < |bytes| =>
      if bytes[i] < 0x80 then bytes[i] as int as char else '\U{FFFD}')
  }

  /**
   * `validatePdfBuffer`: a missing or empty buffer is rejected; otherwise
   * the decoded first (up to) four bytes must read "%PDF".
   */
  function ValidatePdfBuffer(buf: Option<seq<byte>>): (ok: bool)
    ensures ok <==> buf.Some? && |buf.value| >= 4 && buf.value[..4] == PdfMagic
    ensures buf.None? || buf == Some([]) ==> !ok
  {
    if buf.None? || |buf.value| == 0 then false
    else
      var head := buf.value[..if |buf.value| < 4 then |buf.value| else 4];
      var sig := AsciiView(head);
      assert sig == "%PDF" ==> head == PdfMagic by {
        if sig == "%PDF" {
          assert |head| == 4;
          forall i | 0 <= i < 4 ensures head[i] == PdfMagic[i] {
            assert sig[i] == "%PDF"[i];
          }
        }
      }
      sig == "%PDF"
  }

  /** Once a buffer holds four bytes, appending more never changes the verdict. */
  lemma PdfCheckIgnoresTail(b: seq<byte>, tail: seq<byte>)
    requires |b| >= 4
    ensures ValidatePdfBuffer(Some(b + tail)) == ValidatePdfBuffer(Some(b))
  {
    assert (b + tail)[..4] == b[..4];
  }

  /**
   * A buffer shorter than four bytes always fails, but the bytes after it
   * can still decide: it turns valid by growing exactly when it is a
   * prefix of "%PDF".
   */
  lemma PdfCheckShortBuffer(b: seq<byte>)
    requires |b| < 4
    ensures !ValidatePdfBuffer(Some(b))
    ensures b <= PdfMagic ==> ValidatePdfBuffer(Some(b + PdfMagic[|b|..]))
    ensures forall tail :: ValidatePdfBuffer(Some(b + tail)) ==> b <= PdfMagic
  {
    if b <= PdfMagic {
      assert b + PdfMagic[|b|..] == PdfMagic;
    }
    forall tail | ValidatePdfBuffer(Some(b + tail)) ensures b <= PdfMagic {
      assert b == (b + tail)[..4][..|b|];
    }
  }

  // ---------------------------------------------------------------------
  // validateFileType
  // ---------------------------------------------------------------------

  /** The parts of an uploaded file the validators read. */
  datatype UploadedFile = UploadedFile(originalName: string, mimeType: string)

  const AllowedMimeTypes: seq<string> := ["application/pdf"]

  /** `validateFileType`: only the PDF MIME type passes; the error names the file. */
  function ValidateFileType(file: UploadedFile): (r: Outcome<JsError>)
    ensures r.Pass? <==> file.mimeType == "application/pdf"
    ensures r.Fail? ==> r.error == PlainError("Invalid file type for " + file.originalName)
  {
    if file.mimeType in AllowedMimeTypes then Pass
    else Fail(PlainError("Invalid file type for " + file.originalName))
  }

  /** A rejected file's error message ends with, and so mentions, the file's original name. */
  lemma FileTypeErrorNamesFile(file: UploadedFile)
    requires ValidateFileType(file).Fail?
    ensures EndsWith(ValidateFileType(file).error.message, file.originalName)
    ensures Contains(ValidateFileType(file).error.message, file.originalName)
  {
    var m := ValidateFileType(file).error.message;
    var prefix := "Invalid file type for ";
    assert m == prefix + file.originalName;
    assert m[|m| - |file.originalName|..] == file.originalName;
    assert m[|prefix|..|m|] == file.originalName;
    assert Contains(m[|prefix|..|m|], file.originalName) by {
      assert file.originalName <= m[|prefix|..|m|];
    }
    ContainsInSlice(m, file.originalName, |prefix|, |m|);
  }

  // ---------------------------------------------------------------------
  // validateUploadRequest
  // ---------------------------------------------------------------------

  /** The uploaded files by form field; `None` when the request carries none. */
  type FileFields = Option<map<string, seq<UploadedFile>>>

  /** `files?.[field]?.[0]`. */
  function FirstFile(files: FileFields, field: string): Option<UploadedFile>
  {
    if files.Some? && field in files.value && |files.value[field]| > 0
    then Some(files.value[field][0])
    else None
  }

  const MissingFilesMessage: string := "CV and project report are required."

  /** `validateUploadRequest`: both the "cv" and the "project" field must carry a file. */
  function ValidateUploadRequest(files: FileFields): (r: Outcome<JsError>)
    ensures r.Pass? <==>
      && files.Some?
      && "cv" in files.value && files.value["cv"] != []
      && "project" in files.value && files.value["project"] != []
    ensures r.Fail? ==> r.error == PlainError(MissingFilesMessage)
  {
    var cv := FirstFile(files, "cv");
    var project := FirstFile(files, "project");
    if cv.None? || project.None? then Fail(PlainError(MissingFilesMessage)) else Pass
  }

  /** Only the "cv" and "project" fields matter: any other field can be added or removed. */
  lemma UploadRequestIgnoresOtherFields(m: map<string, seq<UploadedFile>>, field: string, files: seq<UploadedFile>)
    requires field != "cv" && field != "project"
    ensures ValidateUploadRequest(Some(m[field := files])) == ValidateUploadRequest(Some(m))
    ensures ValidateUploadRequest(Some(m - {field})) == ValidateUploadRequest(Some(m))
  {
  }

  // ---------------------------------------------------------------------
  // validateLLMJson
  // ---------------------------------------------------------------------

  /** The opening fence of a JSON code block. */
  const JsonFence: string := "```json"

  /** Trimming cuts a slice, so it cannot create a fence. */
  lemma TrimKeepsNoFence(s: string)
    requires !Contains(s, Fence)
    ensures !Contains(Trim(s), Fence) && !Contains(Trim(s), JsonFence)
  {
    var lo, hi := TrimIsSlice(s);
    if Contains(Trim(s), Fence) {
      ContainsInSlice(s, Fence, lo, hi);
      assert false;
    }
    if Contains(Trim(s), JsonFence) {
      NoJsonFenceWithoutFence(Trim(s));
      assert false;
    }
  }

  /** The fence stripping: drop every "```json", then every "```", then trim. */
  function CleanLLMText(text: string): (r: string)
    ensures !Contains(r, Fence) && !Contains(r, JsonFence)
    ensures |r| > 0 ==> !IsWhiteSpace(r[0]) && !IsWhiteSpace(r[|r| - 1])
  {
    var stripped := RemoveAll(RemoveAll(text, JsonFence), Fence);
    RemoveFenceLeavesNoFence(RemoveAll(text, JsonFence));
    TrimKeepsNoFence(stripped);
    Trim(stripped)
  }

  /** Cleaning twice is cleaning once. */
  lemma CleanIdempotent(text: string)
    ensures CleanLLMText(CleanLLMText(text)) == CleanLLMText(text)
  {
    var c := CleanLLMText(text);
    RemoveAllAbsent(c, JsonFence);
    RemoveAllAbsent(c, Fence);
    TrimOfTrimmed(c);
  }

  /** "```json" starts with a fence, so text without a fence holds no "```json" either. */
  lemma NoJsonFenceWithoutFence(s: string)
    requires !Contains(s, Fence)
    ensures !Contains(s, JsonFence)
  {
    if Contains(s, JsonFence) {
      JsonFenceStartsWithFence();
      ContainsLongerPattern(s, Fence, "json");
    }
  }

  lemma JsonFenceStartsWithFence()
    ensures JsonFence == Fence + "json"
  {
  }

  /** Text without a "```" is only trimmed, whatever single or double back-ticks it holds. */
  lemma CleanWithoutFenceIsTrim(text: string)
    requires !Contains(text, Fence)
    ensures CleanLLMText(text) == Trim(text)
  {
    NoJsonFenceWithoutFence(text);
    RemoveAllAbsent(text, JsonFence);
    RemoveAllAbsent(text, Fence);
  }

  /** Removing a pattern from a string that starts with it drops that occurrence first. */
  lemma RemoveAllLeading(pat: string, s: string)
    requires |pat| > 0
    ensures RemoveAll(pat + s, pat) == RemoveAll(s, pat)
  {
    assert pat <= pat + s;
    assert (pat + s)[|pat|..] == s;
  }

  /** Surrounding line breaks are trimmed off a payload whose own ends are not blank. */
  lemma TrimLineBreaks(p: string)
    requires |p| > 0 ==> !IsWhiteSpace(p[0]) && !IsWhiteSpace(p[|p| - 1])
    ensures Trim("\n" + p + "\n") == p
  {
    var s := "\n" + p + "\n";
    var lo, hi := TrimIsSlice(s);
    if |p| > 0 {
      assert s[1] == p[0] && s[|p|] == p[|p| - 1];
      assert s[1..|p| + 1] == p;
    }
  }

  const InvalidJsonMessage: string := "Invalid JSON format from model output."

  /**
   * `validateLLMJson`, with `JSON.parse` as the parameter `parse` (`None`
   * when it throws): the cleaned text is parsed, and any parse failure
   * becomes the one fixed error.
   */
  function ValidateLLMJson<J>(text: string, parse: string -> Option<J>): (r: Result<J, JsError>)
    ensures r.Success? <==> parse(CleanLLMText(text)).Some?
    ensures r.Success? ==> r.value == parse(CleanLLMText(text)).value
    ensures r.Failure? ==> r.error == PlainError(InvalidJsonMessage)
  {
    match parse(CleanLLMText(text))
    case Some(json) => Success(json)
    case None => Failure(PlainError(InvalidJsonMessage))
  }

  /** A "```" in a payload framed by line breaks lies inside the payload. */
  lemma FenceBetweenLineBreaksIsInPayload(p: string, i: int)
    requires OccursAt("\n" + p + "\n", Fence, i)
    ensures OccursAt(p, Fence, i - 1)
  {
    var s := "\n" + p + "\n";
    assert s[i..][..3] == Fence;
    FenceStartsWithTicks(s[i..]);
    assert p[i - 1..i + 2] == s[i..i + 3];
  }

  /** Line breaks around a payload without "```" cannot complete one. */
  lemma NoFenceAcrossLineBreaks(p: string)
    requires !Contains(p, Fence)
    ensures !Contains("\n" + p + "\n", Fence)
  {
    ContainsIffOccurs("\n" + p + "\n", Fence);
    ContainsIffOccurs(p, Fence);
    forall i | OccursAt("\n" + p + "\n", Fence, i)
      ensures OccursAt(p, Fence, i - 1)
    {
      FenceBetweenLineBreaksIsInPayload(p, i);
    }
  }

  /** A "```json" before a closing fence starts a "```" of the text in front. */
  lemma JsonFenceBeforeFenceIsInText(inner: string, i: int)
    requires OccursAt(inner + Fence, JsonFence, i)
    ensures OccursAt(inner, Fence, i)
  {
    var t := inner + Fence;
    JsonFenceStartsWithFence();
    assert t[i..i + 3] == t[i..i + 7][..3];
    assert inner[i..i + 3] == t[i..i + 3];
  }

  /** Text without "```" followed by a closing fence holds no opening "```json". */
  lemma NoJsonFenceBeforeClosingFence(inner: string)
    requires !Contains(inner, Fence)
    ensures !Contains(inner + Fence, JsonFence)
  {
    ContainsIffOccurs(inner + Fence, JsonFence);
    ContainsIffOccurs(inner, Fence);
    forall i | OccursAt(inner + Fence, JsonFence, i)
      ensures OccursAt(inner, Fence, i)
    {
      JsonFenceBeforeFenceIsInText(inner, i);
    }
  }

  /** The first removal takes off the opening "```json" and nothing else. */
  lemma StripOpeningFence(p: string)
    requires !Contains(p, Fence)
    ensures RemoveAll(JsonFence + "\n" + p + "\n" + Fence, JsonFence) == "\n" + p + "\n" + Fence
  {
    var inner := "\n" + p + "\n";
    assert JsonFence + "\n" + p + "\n" + Fence == JsonFence + (inner + Fence);
    RemoveAllLeading(JsonFence, inner + Fence);
    NoFenceAcrossLineBreaks(p);
    NoJsonFenceBeforeClosingFence(inner);
    RemoveAllAbsent(inner + Fence, JsonFence);
  }

  /** The second removal takes off the closing "```" and nothing else. */
  lemma StripClosingFence(p: string)
    requires !Contains(p, Fence)
    ensures RemoveAll("\n" + p + "\n" + Fence, Fence) == "\n" + p + "\n"
  {
    NoFenceAcrossLineBreaks(p);
    RemoveFenceTrailing("\n" + p + "\n");
  }

  /**
   * Cleaning a fenced block gives back the payload, back-ticks inside it
   * included, as long as the payload holds no "```" of its own.
   */
  lemma CleanFencedBlock(p: string)
    requires !Contains(p, Fence)
    requires |p| > 0 ==> !IsWhiteSpace(p[0]) && !IsWhiteSpace(p[|p| - 1])
    ensures CleanLLMText(JsonFence + "\n" + p + "\n" + Fence) == p
  {
    StripOpeningFence(p);
    StripClosingFence(p);
    TrimLineBreaks(p);
  }

  /** The body of a fenced block: the payload on its own line, then the closing fence. */
  function FencedBody(p: string): string
  {
    "\n" + p + "\n" + Fence
  }

  /** The body of a fenced block around a payload without "```" holds no "```json". */
  lemma FencedBodyKeepsJsonFence(p: string)
    requires !Contains(p, Fence)
    ensures RemoveAll(FencedBody(p), JsonFence) == FencedBody(p)
  {
    NoFenceAcrossLineBreaks(p);
    NoJsonFenceBeforeClosingFence("\n" + p + "\n");
    RemoveAllAbsent(FencedBody(p), JsonFence);
  }

  /** A "```json" whose first three characters lie in `pre` starts a "```" of `pre`. */
  lemma JsonFenceInPrefixIsFence(pre: string, rest: string, j: int)
    requires OccursAt(pre + JsonFence + rest, JsonFence, j) && j + 3 <= |pre|
    ensures OccursAt(pre, Fence, j)
  {
    var s := pre + JsonFence + rest;
    JsonFenceStartsWithFence();
    assert s[j..j + 3] == s[j..j + 7][..3];
    assert pre[j..j + 3] == s[j..j + 3];
  }

  /** A "```json" cannot start within the last two characters of `pre`: the ticks that follow are not a 'j'. */
  lemma NoJsonFenceAcrossPrefixEnd(pre: string, rest: string, j: int)
    requires 0 <= j < |pre| < j + 3
    ensures !OccursAt(pre + JsonFence + rest, JsonFence, j)
  {
    var s := pre + JsonFence + rest;
    assert s[j + 3] == JsonFence[j + 3 - |pre|];
    assert JsonFence[j + 3 - |pre|] == '`' && JsonFence[3] == 'j';
  }

  /** After a text without "```", the opening "```json" is the leftmost one. */
  lemma JsonFenceLeftmostAfter(pre: string, rest: string)
    requires !Contains(pre, Fence)
    ensures OccursAt(pre + JsonFence + rest, JsonFence, |pre|)
    ensures forall j :: 0 <= j < |pre| ==> !OccursAt(pre + JsonFence + rest, JsonFence, j)
  {
    var s := pre + JsonFence + rest;
    assert s[|pre|..|pre| + 7] == JsonFence;
    ContainsIffOccurs(pre, Fence);
    forall j | 0 <= j < |pre| && j + 3 <= |pre| && OccursAt(s, JsonFence, j)
      ensures OccursAt(pre, Fence, j)
    {
      JsonFenceInPrefixIsFence(pre, rest, j);
    }
    forall j | 0 <= j < |pre| < j + 3
      ensures !OccursAt(s, JsonFence, j)
    {
      NoJsonFenceAcrossPrefixEnd(pre, rest, j);
    }
  }

  /** The "```json" removal on a fenced block after text without "```" takes off only the opening fence. */
  lemma StripOpeningFenceAfter(pre: string, p: string)
    requires !Contains(pre, Fence) && !Contains(p, Fence)
    ensures RemoveAll(pre + JsonFence + FencedBody(p), JsonFence) == pre + FencedBody(p)
  {
    var s := pre + JsonFence + FencedBody(p);
    JsonFenceLeftmostAfter(pre, FencedBody(p));
    RemoveAllLeftmost(s, JsonFence, |pre|);
    assert s[..|pre|] == pre;
    assert s[|pre| + |JsonFence|..] == FencedBody(p);
    FencedBodyKeepsJsonFence(p);
  }

  /** The "```" removal then takes off only the closing fence. */
  lemma StripClosingFenceAfter(pre: string, p: string)
    requires !Contains(pre, Fence) && !Contains(p, Fence)
    ensures RemoveAll(pre + FencedBody(p), Fence) == pre + "\n" + p + "\n"
  {
    FencedBodyAfter(pre, p);
    RemoveFenceSplits(pre, '\n', p + "\n" + Fence);
    RemoveAllAbsent(pre, Fence);
    StripClosingFenceOfPayload(p);
  }

  lemma FencedBodyAfter(pre: string, p: string)
    ensures pre + FencedBody(p) == pre + ['\n'] + (p + "\n" + Fence)
  {
  }

  lemma StripClosingFenceOfPayload(p: string)
    requires !Contains(p, Fence)
    ensures RemoveAll(p + "\n" + Fence, Fence) == p + "\n"
  {
    assert p + "\n" + Fence == p + ['\n'] + Fence;
    RemoveFenceSplits(p, '\n', Fence);
    RemoveAllAbsent(p, Fence);
    RemoveAllLeading(Fence, "");
    assert Fence + "" == Fence;
  }

  /**
   * Cleaning a "```json" block that follows text without "```" keeps that
   * text and the payload, the block's own line breaks around the payload,
   * and trims the result.
   */
  lemma CleanFencedBlockAfter(pre: string, p: string)
    requires !Contains(pre, Fence) && !Contains(p, Fence)
    ensures CleanLLMText(pre + JsonFence + "\n" + p + "\n" + Fence) == Trim(pre + "\n" + p + "\n")
  {
    assert pre + JsonFence + "\n" + p + "\n" + Fence == pre + JsonFence + FencedBody(p);
    StripOpeningFenceAfter(pre, p);
    StripClosingFenceAfter(pre, p);
  }

  /**
   * A "```json" block after leading white space, around a payload without
   * "```" and without white space at its ends, gives back the payload.
   */
  lemma CleanIndentedFencedBlock(ws: string, p: string)
    requires AllWhiteSpace(ws) && !Contains(p, Fence)
    requires |p| > 0 ==> !IsWhiteSpace(p[0]) && !IsWhiteSpace(p[|p| - 1])
    ensures CleanLLMText(ws + JsonFence + "\n" + p + "\n" + Fence) == p
  {
    WhiteSpaceHasNoFence(ws);
    CleanFencedBlockAfter(ws, p);
    TrimIndentedLines(ws, p);
  }

  /** White space, then a payload on its own line, trims to the payload. */
  lemma TrimIndentedLines(ws: string, p: string)
    requires AllWhiteSpace(ws)
    requires |p| > 0 ==> !IsWhiteSpace(p[0]) && !IsWhiteSpace(p[|p| - 1])
    ensures Trim(ws + "\n" + p + "\n") == p
  {
    assert ws + "\n" + p + "\n" == ws + ("\n" + p + "\n");
    TrimSkipsLeadingWhiteSpace(ws, "\n" + p + "\n");
    TrimLineBreaks(p);
  }

  /**
   * A payload wrapped in a JSON code block, fences on their own lines and
   * white space allowed in front, is parsed exactly as the bare payload would be.
   */
  lemma FencedPayloadParsesAsPayload<J>(ws: string, p: string, parse: string -> Option<J>)
    requires AllWhiteSpace(ws) && !Contains(p, Fence)
    requires |p| > 0 ==> !IsWhiteSpace(p[0]) && !IsWhiteSpace(p[|p| - 1])
    ensures ValidateLLMJson(ws + JsonFence + "\n" + p + "\n" + Fence, parse) == ValidateLLMJson(p, parse)
  {
    CleanIndentedFencedBlock(ws, p);
    CleanBarePayload(p);
    SameCleanSameValidation(ws + JsonFence + "\n" + p + "\n" + Fence, p, parse);
  }

  /** A payload without "```" and without whitespace at its ends is already clean. */
  lemma CleanBarePayload(p: string)
    requires !Contains(p, Fence)
    requires |p| > 0 ==> !IsWhiteSpace(p[0]) && !IsWhiteSpace(p[|p| - 1])
    ensures CleanLLMText(p) == p
  {
    CleanWithoutFenceIsTrim(p);
    TrimOfTrimmed(p);
  }

  /** Validation sees a text only through its cleaned form. */
  lemma SameCleanSameValidation<J>(a: string, b: string, parse: string -> Option<J>)
    requires CleanLLMText(a) == CleanLLMText(b)
    ensures ValidateLLMJson(a, parse) == ValidateLLMJson(b, parse)
  {
  }
}
