/**
 * The HTTP error middleware: a first-match decision list from the thrown
 * value's code and lower-cased message to an HTTP status and the message
 * shown to the client.
 */
module ErrorHandler {
  import opened Wrappers
  import opened Strings

  /**
   * The fields of the thrown value the middleware reads. `None` stands for a
   * missing (undefined) field; present fields are strings.
   */
  datatype ErrorValue = ErrorValue(code: Option<string>, name: Option<string>, message: Option<string>)

  /** JavaScript truthiness of an optional string field. */
  predicate Truthy(f: Option<string>)
  {
    f.Some? && f.value != ""
  }

  /** The code the guards compare against: `code`, else `name`, else the empty string. */
  function CodeOf(err: ErrorValue): (c: string)
    ensures c == "" <==> !Truthy(err.code) && !Truthy(err.name)
    ensures c != "" ==> Some(c) == err.code || Some(c) == err.name
    ensures Truthy(err.code) ==> c == err.code.value
  {
    if Truthy(err.code) then err.code.value
    else if Truthy(err.name) then err.name.value
    else ""
  }

  /** The lower-cased message the guards search in (empty when there is none). */
  function MessageOf(err: ErrorValue): (m: string)
    ensures Lower(m) == m
    ensures Truthy(err.message) ==> |m| == |err.message.value|
    ensures Truthy(err.message) ==>
      forall i :: 0 <= i < |m| ==> m[i] == LowerChar(err.message.value[i])
    ensures !Truthy(err.message) ==> m == ""
  {
    var raw := if Truthy(err.message) then err.message.value else "";
    LowerIdempotent(raw);
    Lower(raw)
  }

  /** The shapes of guard used by the decision list. */
  datatype Guard =
    | PhraseOrCode(phrase: string, code: string)
    | Phrase(phrase: string)
    | EitherPhrase(first: string, second: string)
    | BothPhrases(first: string, second: string)

  predicate Holds(g: Guard, msg: string, code: string)
  {
    match g
    case PhraseOrCode(p, c) => Contains(msg, p) || code == c
    case Phrase(p) => Contains(msg, p)
    case EitherPhrase(p, q) => Contains(msg, p) || Contains(msg, q)
    case BothPhrases(p, q) => Contains(msg, p) && Contains(msg, q)
  }

  /** The canned replies, one per case of the decision list. */
  datatype Reply =
    | NoFileUploaded | EmptyFile | InvalidFileType | FileTooLarge | PdfParseFailed
    | SupabaseUploadFailed | SupabaseDownloadFailed | SupabaseQuota
    | ZillizQuota | ZillizUnreachable
    | GeminiTimeout | GeminiUnavailable | GeminiQuota
    | NetworkError

  /** The decision list, top to bottom. */
  const Order: seq<Reply> := [
    NoFileUploaded, EmptyFile, InvalidFileType, FileTooLarge, PdfParseFailed,
    SupabaseUploadFailed, SupabaseDownloadFailed, SupabaseQuota,
    ZillizQuota, ZillizUnreachable,
    GeminiTimeout, GeminiUnavailable, GeminiQuota,
    NetworkError
  ]

  /** The guard of each case. */
  function GuardOf(r: Reply): Guard
  {
    match r
    case NoFileUploaded => PhraseOrCode("no file uploaded", "NO_FILE_UPLOADED")
    case EmptyFile => PhraseOrCode("empty file", "EMPTY_FILE")
    case InvalidFileType => PhraseOrCode("invalid file type", "INVALID_FILE_TYPE")
    case FileTooLarge => PhraseOrCode("file too large", "LIMIT_FILE_SIZE")
    case PdfParseFailed => PhraseOrCode("pdf parse", "PDF_PARSE_ERROR")
    case SupabaseUploadFailed => Phrase("supabase upload failed")
    case SupabaseDownloadFailed => Phrase("supabase download failed")
    case SupabaseQuota => EitherPhrase("quota", "rate limit exceeded")
    case ZillizQuota => BothPhrases("zilliz", "quota")
    case ZillizUnreachable => Phrase("zilliz connection failed")
    case GeminiTimeout => BothPhrases("gemini", "timeout")
    case GeminiUnavailable => BothPhrases("gemini", "unavailable")
    case GeminiQuota => EitherPhrase("quota", "rate limit")
    case NetworkError => Phrase("network")
  }

  /** The HTTP status of each case; the default's 500 is never among them. */
  function StatusOf(r: Reply): (s: nat)
    ensures s in {400, 413, 422, 429, 502, 503, 504}
  {
    match r
    case NoFileUploaded | EmptyFile | InvalidFileType => 400
    case FileTooLarge => 413
    case PdfParseFailed => 422
    case SupabaseUploadFailed | SupabaseDownloadFailed => 502
    case SupabaseQuota | ZillizQuota | GeminiQuota => 429
    case ZillizUnreachable | GeminiUnavailable | NetworkError => 503
    case GeminiTimeout => 504
  }

  /** The text sent to the client for each case. */
  function ReplyText(r: Reply): string
  {
    match r
    case NoFileUploaded => "No file uploaded. Please attach a PDF file."
    case EmptyFile => "Uploaded file is empty (0 bytes). Please check your file."
    case InvalidFileType => "Invalid file type. Only PDF files are supported."
    case FileTooLarge => "File too large. Maximum 10 MB allowed."
    case PdfParseFailed => "Failed to parse PDF \U{2014} it may be corrupted or image-based."
    case SupabaseUploadFailed => "Supabase upload failed. Please try again later."
    case SupabaseDownloadFailed => "Unable to download file from Supabase. Please retry later."
    case SupabaseQuota => "Supabase API quota limit reached. Please wait before retrying."
    case ZillizQuota => "Zilliz API quota limit reached. Try again later or upgrade your plan."
    case ZillizUnreachable => "Zilliz service is currently unreachable."
    case GeminiTimeout => "Gemini model request timed out. Please retry."
    case GeminiUnavailable => "Gemini API is temporarily unavailable."
    case GeminiQuota => "Gemini API quota or rate limit exceeded. Please try again later."
    case NetworkError => "Network error. Please check your connection."
  }

  /** Where each reply sits in the decision list. */
  function Position(r: Reply): (i: nat)
    ensures i < |Order| && Order[i] == r
  {
    match r
    case NoFileUploaded => 0
    case EmptyFile => 1
    case InvalidFileType => 2
    case FileTooLarge => 3
    case PdfParseFailed => 4
    case SupabaseUploadFailed => 5
    case SupabaseDownloadFailed => 6
    case SupabaseQuota => 7
    case ZillizQuota => 8
    case ZillizUnreachable => 9
    case GeminiTimeout => 10
    case GeminiUnavailable => 11
    case GeminiQuota => 12
    case NetworkError => 13
  }

  /** The list holds each reply once. */
  lemma PositionOfOrder(i: nat)
    requires i < |Order|
    ensures Position(Order[i]) == i
  {
  }

  /** The default text when the error has no message. */
  const DefaultText: string := "Internal server error"

  /** Case `i` of the list holds for this message and code. */
  predicate Matches(msg: string, code: string, i: int)
  {
    0 <= i < |Order| && Holds(GuardOf(Order[i]), msg, code)
  }

  /** Case `i` holds and no case above it does. */
  predicate IsFirstMatch(msg: string, code: string, i: int)
  {
    Matches(msg, code, i) && forall j :: 0 <= j < i ==> !Matches(msg, code, j)
  }

  /** No case of the list holds. */
  predicate NoneMatch(msg: string, code: string)
  {
    forall j :: 0 <= j < |Order| ==> !Matches(msg, code, j)
  }

  /** The first case at or after `from` whose guard holds. */
  function FirstMatch(msg: string, code: string, from: nat): (r: Option<nat>)
    requires from <= |Order|
    ensures r.Some? ==> from <= r.value && Matches(msg, code, r.value)
    ensures r.Some? ==> forall j :: from <= j < r.value ==> !Matches(msg, code, j)
    ensures r.None? <==> forall j :: from <= j < |Order| ==> !Matches(msg, code, j)
    decreases |Order| - from
  {
    if from == |Order| then None
    else if Matches(msg, code, from) then Some(from)
    else FirstMatch(msg, code, from + 1)
  }

  /** At most one case is the first match. */
  lemma FirstMatchUnique(msg: string, code: string, i: int, j: int)
    requires IsFirstMatch(msg, code, i) && IsFirstMatch(msg, code, j)
    ensures i == j
  {
  }

  /** A first match is the only one, and its reply sits at its own position. */
  lemma OnlyFirstMatch(msg: string, code: string, i: int)
    requires IsFirstMatch(msg, code, i)
    ensures forall j :: IsFirstMatch(msg, code, j) ==> j == i
    ensures Position(Order[i]) == i
  {
    forall j | IsFirstMatch(msg, code, j)
      ensures j == i
    {
      FirstMatchUnique(msg, code, i, j);
    }
    PositionOfOrder(i);
  }

  /** The reply of the first case whose guard holds, if any. */
  function Classify(msg: string, code: string): (c: Option<Reply>)
    ensures c.None? <==> NoneMatch(msg, code)
    ensures c.Some? ==> IsFirstMatch(msg, code, Position(c.value))
    ensures forall i :: IsFirstMatch(msg, code, i) ==> c == Some(Order[i])
  {
    match FirstMatch(msg, code, 0)
    case Some(i) => OnlyFirstMatch(msg, code, i); Some(Order[i])
    case None => None
  }

  /** The body's `error` field: a canned reply's text, or the error's own message passed through. */
  datatype Message = Canned(reply: Reply) | Passthrough(text: string)

  function Text(m: Message): string
  {
    match m
    case Canned(r) => ReplyText(r)
    case Passthrough(t) => t
  }

  datatype Body = Body(success: bool, error: Message)
  datatype Response = Response(status: nat, body: Body)

  /**
   * The middleware's response: the first case whose guard holds, or 500 with
   * the raw message (or a generic text when there is none).
   */
  function HandleError(err: ErrorValue): (r: Response)
    ensures !r.body.success
    ensures r.status in {400, 413, 422, 429, 500, 502, 503, 504}
    ensures r.status == 500 <==> NoneMatch(MessageOf(err), CodeOf(err))
    ensures forall i :: IsFirstMatch(MessageOf(err), CodeOf(err), i) ==>
      r == Response(StatusOf(Order[i]), Body(false, Canned(Order[i])))
    ensures NoneMatch(MessageOf(err), CodeOf(err)) ==>
      r.body.error == Passthrough(if Truthy(err.message) then err.message.value else DefaultText)
    ensures r.status != 500 ==> Classify(MessageOf(err), CodeOf(err)) == Some(r.body.error.reply)
  {
    match Classify(MessageOf(err), CodeOf(err))
    case Some(reply) => Response(StatusOf(reply), Body(false, Canned(reply)))
    case None => Response(500, Body(false, Passthrough(if Truthy(err.message) then err.message.value else DefaultText)))
  }

  /**
   * When case `p` holds, the answer comes from case `p` or one above it, and
   * from case `p` itself exactly when no case above it holds.
   */
  lemma SettledBy(msg: string, code: string, p: nat)
    requires Matches(msg, code, p)
    ensures Classify(msg, code).Some?
    ensures Position(Classify(msg, code).value) <= p
    ensures Classify(msg, code) == Some(Order[p]) <==> forall j :: 0 <= j < p ==> !Matches(msg, code, j)
  {
    var c := Classify(msg, code);
    assert c.Some?;
    PositionOfOrder(p);
  }

  /**
   * Any message mentioning "quota" is settled by the Supabase quota case at
   * the latest; when no case above it holds, the answer is that 429.
   */
  lemma QuotaStopsAtSupabase(msg: string, code: string)
    requires Contains(msg, "quota")
    ensures Classify(msg, code).Some?
    ensures Position(Classify(msg, code).value) <= Position(SupabaseQuota)
    ensures (forall j :: 0 <= j < Position(SupabaseQuota) ==> !Matches(msg, code, j)) ==>
      Classify(msg, code) == Some(SupabaseQuota)
  {
    assert Matches(msg, code, Position(SupabaseQuota));
  }

  /** The Zilliz quota case is never chosen: its guard implies the Supabase quota guard above it. */
  lemma ZillizQuotaUnreachable(msg: string, code: string)
    ensures Classify(msg, code) != Some(ZillizQuota)
  {
    if Matches(msg, code, Position(ZillizQuota)) {
      assert Matches(msg, code, Position(SupabaseQuota));
    }
  }

  /**
   * The later Gemini 429 case is chosen only for "rate limit" without
   * "rate limit exceeded" and without "quota".
   */
  lemma GeminiQuotaOnlyForRateLimit(msg: string, code: string)
    requires Classify(msg, code) == Some(GeminiQuota)
    ensures Contains(msg, "rate limit")
    ensures !Contains(msg, "rate limit exceeded")
    ensures !Contains(msg, "quota")
  {
    assert !Matches(msg, code, Position(SupabaseQuota));
  }

  /** A "gemini" and "timeout" message gets the 504 exactly when no case above the Gemini timeout holds. */
  lemma GeminiTimeoutUnlessEarlier(msg: string, code: string)
    requires Contains(msg, "gemini") && Contains(msg, "timeout")
    ensures Classify(msg, code).Some?
    ensures Position(Classify(msg, code).value) <= Position(GeminiTimeout)
    ensures Classify(msg, code) == Some(GeminiTimeout) <==>
      forall j :: 0 <= j < Position(GeminiTimeout) ==> !Matches(msg, code, j)
  {
    assert Matches(msg, code, Position(GeminiTimeout));
  }

  /** The first three upload codes always answer 400, whatever the message says. */
  lemma UploadCodesAnswer400(msg: string, code: string)
    requires code in {"NO_FILE_UPLOADED", "EMPTY_FILE", "INVALID_FILE_TYPE"}
    ensures Classify(msg, code).Some? && StatusOf(Classify(msg, code).value) == 400
    ensures code == "NO_FILE_UPLOADED" ==> Classify(msg, code) == Some(NoFileUploaded)
  {
    if code == "NO_FILE_UPLOADED" {
      assert Matches(msg, code, 0);
    } else if code == "EMPTY_FILE" {
      assert Matches(msg, code, 1);
    } else {
      assert Matches(msg, code, 2);
    }
  }

  /**
   * The file-size code answers 413 unless the message also names one of the
   * three upload problems above it, which answer 400.
   */
  lemma FileSizeCodeAnswer(msg: string, code: string)
    requires code == "LIMIT_FILE_SIZE"
    ensures Classify(msg, code).Some?
    ensures StatusOf(Classify(msg, code).value) in {400, 413}
    ensures Classify(msg, code) == Some(FileTooLarge) <==>
      !Contains(msg, "no file uploaded") && !Contains(msg, "empty file") && !Contains(msg, "invalid file type")
  {
    UploadGuards(msg, code);
    SettledBy(msg, code, 3);
    UploadStatuses(Position(Classify(msg, code).value));
    if !Contains(msg, "no file uploaded") && !Contains(msg, "empty file") && !Contains(msg, "invalid file type") {
      forall j | 0 <= j < 3
        ensures !Matches(msg, code, j)
      {
        assert j == 0 || j == 1 || j == 2;
      }
    }
  }

  /**
   * The PDF-parse code answers 422 unless the message also names one of the
   * four upload problems above it.
   */
  lemma PdfParseCodeAnswer(msg: string, code: string)
    requires code == "PDF_PARSE_ERROR"
    ensures Classify(msg, code).Some?
    ensures StatusOf(Classify(msg, code).value) in {400, 413, 422}
    ensures Classify(msg, code) == Some(PdfParseFailed) <==>
      !Contains(msg, "no file uploaded") && !Contains(msg, "empty file")
      && !Contains(msg, "invalid file type") && !Contains(msg, "file too large")
  {
    UploadGuards(msg, code);
    SettledBy(msg, code, 4);
    UploadStatuses(Position(Classify(msg, code).value));
    if && !Contains(msg, "no file uploaded") && !Contains(msg, "empty file")
       && !Contains(msg, "invalid file type") && !Contains(msg, "file too large")
    {
      forall j | 0 <= j < 4
        ensures !Matches(msg, code, j)
      {
        assert j == 0 || j == 1 || j == 2 || j == 3;
      }
    }
  }

  /** The guards of the five file-upload cases at the top of the list, spelled out. */
  lemma UploadGuards(msg: string, code: string)
    ensures Matches(msg, code, 0) <==> Contains(msg, "no file uploaded") || code == "NO_FILE_UPLOADED"
    ensures Matches(msg, code, 1) <==> Contains(msg, "empty file") || code == "EMPTY_FILE"
    ensures Matches(msg, code, 2) <==> Contains(msg, "invalid file type") || code == "INVALID_FILE_TYPE"
    ensures Matches(msg, code, 3) <==> Contains(msg, "file too large") || code == "LIMIT_FILE_SIZE"
    ensures Matches(msg, code, 4) <==> Contains(msg, "pdf parse") || code == "PDF_PARSE_ERROR"
  {
  }

  /** The statuses of the five file-upload cases: 400 three times, then 413, then 422. */
  lemma UploadStatuses(i: nat)
    requires i <= 4
    ensures StatusOf(Order[i]) == if i < 3 then 400 else if i == 3 then 413 else 422
  {
  }

  /**
   * Guards read the message only through its lower-cased form: two errors
   * with the same code and messages equal up to case get the same status,
   * and the same reply whenever a case holds.
   */
  lemma CaseInsensitive(e1: ErrorValue, e2: ErrorValue)
    requires CodeOf(e1) == CodeOf(e2)
    requires Lower(e1.message.GetOr("")) == Lower(e2.message.GetOr(""))
    ensures HandleError(e1).status == HandleError(e2).status
    ensures HandleError(e1).status != 500 ==> HandleError(e1) == HandleError(e2)
  {
    assert MessageOf(e1) == MessageOf(e2);
  }

  /** A missing or empty code falls back to the error's name. */
  lemma NameStandsInForCode(err: ErrorValue)
    requires !Truthy(err.code)
    ensures HandleError(err) == HandleError(err.(code := err.name))
  {
  }
}
