/**
 * The system-document loader: the file-type dispatch, the split of the
 * document text into pieces of at most 1500 characters, and the loop that
 * embeds and stores each piece in order.
 */
module SystemDocs {
  import opened Wrappers
  import opened Errors
  import opened Strings

  // ---------------------------------------------------------------------
  // text.match(/.{1,1500}/gs) || []
  // ---------------------------------------------------------------------

  /** The most characters one match of the chunking pattern takes. */
  const ChunkSize: nat := 1500

  /** The pieces joined back together in order. */
  function Flatten<T>(pieces: seq<seq<T>>): seq<T>
    decreases |pieces|
  {
    if pieces == [] then [] else pieces[0] + Flatten(pieces[1..])
  }

  lemma FlattenCons<T>(p: seq<T>, rest: seq<seq<T>>)
    ensures Flatten([p] + rest) == p + Flatten(rest)
  {
    assert ([p] + rest)[1..] == rest;
  }

  /** Every piece is non-empty and no longer than `ChunkSize`; all but the last are full. */
  predicate WellSized<T>(pieces: seq<seq<T>>)
  {
    && (forall i :: 0 <= i < |pieces| ==> 1 <= |pieces[i]| <= ChunkSize)
    && (forall i :: 0 <= i < |pieces| - 1 ==> |pieces[i]| == ChunkSize)
  }

  /**
   * The matches of `/.{1,1500}/gs` on the text: with the `s` flag `.` also
   * matches line terminators, so the greedy global scan takes 1500 code
   * units at a time and whatever is left at the end; an empty text has no
   * match, which the `|| []` turns into no pieces.
   */
  function Chunks<T>(text: seq<T>): (pieces: seq<seq<T>>)
    ensures Flatten(pieces) == text
    ensures WellSized(pieces)
    ensures pieces == [] <==> text == []
    decreases |text|
  {
    if |text| == 0 then []
    else if |text| <= ChunkSize then
      FlattenCons(text, []);
      [text]
    else
      var rest := Chunks(text[ChunkSize..]);
      FlattenCons(text[..ChunkSize], rest);
      assert text[..ChunkSize] + text[ChunkSize..] == text;
      [text[..ChunkSize]] + rest
  }

  /** There are ⌈|text| / 1500⌉ pieces. */
  lemma {:induction false} ChunkCount<T>(text: seq<T>)
    ensures |Chunks(text)| == (|text| + ChunkSize - 1) / ChunkSize
    decreases |text|
  {
    if |text| > ChunkSize {
      ChunkCount(text[ChunkSize..]);
    }
  }

  /**
   * The pieces are the only well-sized split of the text: any sequence of
   * pieces that joins back to the text, each of 1 to 1500 characters and
   * all but the last full, is exactly what the scan returns.
   */
  lemma {:induction false} ChunksUnique<T>(text: seq<T>, pieces: seq<seq<T>>)
    requires Flatten(pieces) == text
    requires WellSized(pieces)
    ensures pieces == Chunks(text)
    decreases |pieces|
  {
    if pieces != [] {
      var rest := pieces[1..];
      assert pieces == [pieces[0]] + rest;
      FlattenCons(pieces[0], rest);
      if rest == [] {
        assert text == pieces[0];
      } else {
        assert |pieces[0]| == ChunkSize;
        assert |rest[0]| >= 1;
        assert text[..ChunkSize] == pieces[0];
        assert text[ChunkSize..] == Flatten(rest);
        assert |Flatten(rest)| >= 1 by {
          FlattenCons(rest[0], rest[1..]);
          assert rest == [rest[0]] + rest[1..];
        }
        ChunksUnique(text[ChunkSize..], rest);
      }
    }
  }

  /** The length of the next match: a full piece, or whatever is left. */
  function PieceLength(remaining: nat): (n: nat)
    ensures remaining > 0 ==> 1 <= n <= remaining && n <= ChunkSize
  {
    if remaining <= ChunkSize then remaining else ChunkSize
  }

  /** One step of the scan: the next piece, then the pieces of what follows it. */
  lemma ChunksStep<T>(rest: seq<T>)
    requires rest != []
    ensures Chunks(rest) == [rest[..PieceLength(|rest|)]] + Chunks(rest[PieceLength(|rest|)..])
  {
    if |rest| <= ChunkSize {
      assert rest[..|rest|] == rest;
      assert rest[|rest|..] == [];
    }
  }

  /** Taking the next piece keeps the pieces found so far a prefix of the whole split. */
  lemma ScanStep<T>(text: seq<T>, pieces: seq<seq<T>>, rest: seq<T>)
    requires rest != []
    requires pieces + Chunks(rest) == Chunks(text)
    ensures var n := PieceLength(|rest|);
      (pieces + [rest[..n]]) + Chunks(rest[n..]) == Chunks(text)
  {
    ChunksStep(rest);
  }

  /** The global match as a scan over the text, one piece per match. */
  method ChunkText<T>(text: seq<T>) returns (pieces: seq<seq<T>>)
    ensures pieces == Chunks(text)
    ensures Flatten(pieces) == text && WellSized(pieces)
  {
    pieces := [];
    var rest := text;
    while rest != []
      invariant pieces + Chunks(rest) == Chunks(text)
      decreases |rest|
    {
      var n := PieceLength(|rest|);
      ScanStep(text, pieces, rest);
      pieces := pieces + [rest[..n]];
      rest := rest[n..];
    }
    assert pieces + [] == pieces;
  }

  // ---------------------------------------------------------------------
  // loadDocument
  // ---------------------------------------------------------------------

  /** An embedding vector, as the embedding service returns it. */
  type Embedding = seq<real>

  /** The outside calls the loader makes, in the order it makes them. */
  datatype DocEvent =
    | ReadPdf(path: string)
    | ReadText(path: string)
    | Embed(chunk: string)
    | Insert(embedding: Embedding, docType: string, title: string, chunk: string)

  /**
   * The file reads and remote services, as functions: PDF reading with text
   * extraction, plain-text reading, the embedding call and the vector-store
   * insert. Each either answers or throws.
   */
  datatype Services = Services(
    extractPdf: string -> Result<string, JsError>,
    readText: string -> Result<string, JsError>,
    embed: string -> Result<Embedding, JsError>,
    insert: (Embedding, string, string, string) -> Outcome<JsError>)

  /** What a load did and how it ended. */
  datatype Load = Load(trace: seq<DocEvent>, result: Outcome<JsError>)

  /** Both calls for this piece go through. */
  predicate Stored(svc: Services, docType: string, title: string, chunk: string)
  {
    svc.embed(chunk).Success? && svc.insert(svc.embed(chunk).value, docType, title, chunk).Pass?
  }

  /** The trace starts with an embed then an insert for each of the first `n` pieces, in order. */
  predicate StoredInOrder(t: seq<DocEvent>, svc: Services, docType: string, title: string,
                             pieces: seq<string>, n: nat)
    requires n <= |pieces|
  {
    && 2 * n <= |t|
    && forall i :: 0 <= i < n ==>
         && Stored(svc, docType, title, pieces[i])
         && t[2 * i] == Embed(pieces[i])
         && t[2 * i + 1] == Insert(svc.embed(pieces[i]).value, docType, title, pieces[i])
  }

  /**
   * The loop over the pieces: embed, then insert, then the next piece; the
   * first call that throws ends the loop with that error.
   */
  function ProcessChunks(pieces: seq<string>, docType: string, title: string, svc: Services): (l: Load)
    ensures l.result.Pass? <==> forall i :: 0 <= i < |pieces| ==> Stored(svc, docType, title, pieces[i])
    ensures l.result.Pass? ==> |l.trace| == 2 * |pieces| && StoredInOrder(l.trace, svc, docType, title, pieces, |pieces|)
    ensures |l.trace| <= 2 * |pieces|
    decreases |pieces|
  {
    if pieces == [] then Load([], Pass)
    else
      var c := pieces[0];
      match svc.embed(c)
      case Failure(e) => Load([Embed(c)], Fail(e))
      case Success(v) =>
        match svc.insert(v, docType, title, c)
        case Fail(e) => Load([Embed(c), Insert(v, docType, title, c)], Fail(e))
        case Pass =>
          var rest := ProcessChunks(pieces[1..], docType, title, svc);
          ProcessChunksCons(pieces, docType, title, svc, rest);
          Load([Embed(c), Insert(v, docType, title, c)] + rest.trace, rest.result)
  }

  /** The inductive step of `ProcessChunks`' contract, for a first piece that is stored. */
  lemma ProcessChunksCons(pieces: seq<string>, docType: string, title: string, svc: Services, rest: Load)
    requires pieces != [] && Stored(svc, docType, title, pieces[0])
    requires rest.result.Pass? <==> forall i :: 0 <= i < |pieces| - 1 ==> Stored(svc, docType, title, pieces[1..][i])
    requires rest.result.Pass? ==> |rest.trace| == 2 * (|pieces| - 1) && StoredInOrder(rest.trace, svc, docType, title, pieces[1..], |pieces| - 1)
    ensures var t := [Embed(pieces[0]), Insert(svc.embed(pieces[0]).value, docType, title, pieces[0])] + rest.trace;
      && (rest.result.Pass? <==> forall i :: 0 <= i < |pieces| ==> Stored(svc, docType, title, pieces[i]))
      && (rest.result.Pass? ==> StoredInOrder(t, svc, docType, title, pieces, |pieces|))
  {
    var t := [Embed(pieces[0]), Insert(svc.embed(pieces[0]).value, docType, title, pieces[0])] + rest.trace;
    if forall i :: 0 <= i < |pieces| - 1 ==> Stored(svc, docType, title, pieces[1..][i]) {
      forall i | 0 <= i < |pieces| ensures Stored(svc, docType, title, pieces[i]) {
        if i > 0 { assert pieces[i] == pieces[1..][i - 1]; }
      }
    }
    if rest.result.Pass? {
      forall i | 0 <= i < |pieces|
        ensures t[2 * i] == Embed(pieces[i])
        ensures t[2 * i + 1] == Insert(svc.embed(pieces[i]).value, docType, title, pieces[i])
      {
        if i > 0 {
          assert pieces[i] == pieces[1..][i - 1];
          assert t[2 * i] == rest.trace[2 * (i - 1)];
          assert t[2 * i + 1] == rest.trace[2 * (i - 1) + 1];
        }
      }
    }
  }

  /**
   * The loop's outcome when piece `k` is the first that fails to be stored:
   * the pieces before it stored in order, then the failing call(s) for
   * piece `k`, nothing for any later piece, and that call's error.
   */
  predicate FirstFailureAt(l: Load, pieces: seq<string>, docType: string, title: string, svc: Services, k: nat)
    requires k < |pieces|
  {
    var e := svc.embed(pieces[k]);
    && StoredInOrder(l.trace, svc, docType, title, pieces, k)
    && 2 * k < |l.trace| && l.trace[2 * k] == Embed(pieces[k])
    && (e.Failure? ==> |l.trace| == 2 * k + 1 && l.result == Fail(e.error))
    && (e.Success? ==> |l.trace| == 2 * k + 2
                       && l.trace[2 * k + 1] == Insert(e.value, docType, title, pieces[k])
                       && l.result == svc.insert(e.value, docType, title, pieces[k]))
  }

  /**
   * When piece `k` is the first that fails to be stored, the loop stored the
   * pieces before it in order, then made the failing call(s) for piece `k`,
   * touched no later piece, and ends with that call's error.
   */
  lemma {:induction false} ProcessChunksStopsAtFirstFailure(pieces: seq<string>, docType: string, title: string,
                                                               svc: Services, k: nat)
    requires k < |pieces|
    requires forall i :: 0 <= i < k ==> Stored(svc, docType, title, pieces[i])
    requires !Stored(svc, docType, title, pieces[k])
    ensures var l := ProcessChunks(pieces, docType, title, svc);
      var e := svc.embed(pieces[k]);
      && StoredInOrder(l.trace, svc, docType, title, pieces, k)
      && 2 * k < |l.trace| && l.trace[2 * k] == Embed(pieces[k])
      && (e.Failure? ==> |l.trace| == 2 * k + 1 && l.result == Fail(e.error))
      && (e.Success? ==> |l.trace| == 2 * k + 2
                         && l.trace[2 * k + 1] == Insert(e.value, docType, title, pieces[k])
                         && l.result == svc.insert(e.value, docType, title, pieces[k]))
    decreases k
  {
    if k > 0 {
      var tail := pieces[1..];
      forall i | 0 <= i < k - 1 ensures Stored(svc, docType, title, tail[i]) {
        assert tail[i] == pieces[i + 1];
      }
      assert tail[k - 1] == pieces[k];
      ProcessChunksStopsAtFirstFailure(tail, docType, title, svc, k - 1);
      FirstFailureCons(pieces, docType, title, svc, k);
    }
    assert FirstFailureAt(ProcessChunks(pieces, docType, title, svc), pieces, docType, title, svc, k);
  }

  /** A stored first piece puts its two calls in front of the first failure among the rest. */
  lemma FirstFailureCons(pieces: seq<string>, docType: string, title: string, svc: Services, k: nat)
    requires 0 < k < |pieces|
    requires Stored(svc, docType, title, pieces[0])
    requires FirstFailureAt(ProcessChunks(pieces[1..], docType, title, svc), pieces[1..], docType, title, svc, k - 1)
    ensures FirstFailureAt(ProcessChunks(pieces, docType, title, svc), pieces, docType, title, svc, k)
  {
    var tail := pieces[1..];
    assert tail[k - 1] == pieces[k];
    var rest := ProcessChunks(tail, docType, title, svc);
    var l := ProcessChunks(pieces, docType, title, svc);
    var head := [Embed(pieces[0]), Insert(svc.embed(pieces[0]).value, docType, title, pieces[0])];
    assert l.trace == head + rest.trace && l.result == rest.result;
    StoredInOrderCons(rest.trace, svc, docType, title, pieces, k);
    assert l.trace[2 * k] == rest.trace[2 * (k - 1)];
    if svc.embed(pieces[k]).Success? {
      assert l.trace[2 * k + 1] == rest.trace[2 * (k - 1) + 1];
    }
  }

  /** Two calls for a stored first piece, in front of the rest's in-order prefix, extend that prefix by one. */
  lemma StoredInOrderCons(rest: seq<DocEvent>, svc: Services, docType: string, title: string,
                          pieces: seq<string>, n: nat)
    requires 0 < n <= |pieces|
    requires Stored(svc, docType, title, pieces[0])
    requires StoredInOrder(rest, svc, docType, title, pieces[1..], n - 1)
    ensures StoredInOrder([Embed(pieces[0]), Insert(svc.embed(pieces[0]).value, docType, title, pieces[0])] + rest,
                          svc, docType, title, pieces, n)
  {
    var t := [Embed(pieces[0]), Insert(svc.embed(pieces[0]).value, docType, title, pieces[0])] + rest;
    forall i | 0 <= i < n
      ensures Stored(svc, docType, title, pieces[i])
      ensures t[2 * i] == Embed(pieces[i])
      ensures t[2 * i + 1] == Insert(svc.embed(pieces[i]).value, docType, title, pieces[i])
    {
      if i > 0 {
        assert pieces[i] == pieces[1..][i - 1];
        assert t[2 * i] == rest[2 * (i - 1)];
        assert t[2 * i + 1] == rest[2 * (i - 1) + 1];
      }
    }
  }

  /** The pieces of the `Embed` events, in trace order. */
  function EmbeddedChunks(t: seq<DocEvent>): seq<string>
    decreases |t|
  {
    if t == [] then []
    else (if t[0].Embed? then [t[0].chunk] else []) + EmbeddedChunks(t[1..])
  }

  lemma {:induction false} EmbeddedChunksAppend(a: seq<DocEvent>, b: seq<DocEvent>)
    ensures EmbeddedChunks(a + b) == EmbeddedChunks(a) + EmbeddedChunks(b)
    decreases |a|
  {
    if a == [] {
      assert a + b == b;
    } else {
      assert (a + b)[1..] == a[1..] + b;
      EmbeddedChunksAppend(a[1..], b);
    }
  }

  /** A complete pass over the pieces embeds exactly those pieces, in order. */
  lemma {:induction false} ProcessedEmbedsEveryPiece(pieces: seq<string>, docType: string, title: string, svc: Services)
    requires ProcessChunks(pieces, docType, title, svc).result.Pass?
    ensures EmbeddedChunks(ProcessChunks(pieces, docType, title, svc).trace) == pieces
    decreases |pieces|
  {
    if pieces != [] {
      var c := pieces[0];
      var head: seq<DocEvent> := [Embed(c), Insert(svc.embed(c).value, docType, title, c)];
      var rest := ProcessChunks(pieces[1..], docType, title, svc);
      ProcessedEmbedsEveryPiece(pieces[1..], docType, title, svc);
      EmbeddedChunksAppend(head, rest.trace);
      assert EmbeddedChunks(head) == [c] by {
        assert head[1..][1..] == [];
      }
      assert pieces == [c] + pieces[1..];
    }
  }

  /** Every event is an embed or an insert call. */
  predicate OnlyCalls(t: seq<DocEvent>)
  {
    forall i :: 0 <= i < |t| ==> t[i].Embed? || t[i].Insert?
  }

  /** The loop only embeds and inserts. */
  lemma {:induction false} ProcessedEventsAreCalls(pieces: seq<string>, docType: string, title: string, svc: Services)
    ensures OnlyCalls(ProcessChunks(pieces, docType, title, svc).trace)
    decreases |pieces|
  {
    if pieces != [] && Stored(svc, docType, title, pieces[0]) {
      var c := pieces[0];
      var rest := ProcessChunks(pieces[1..], docType, title, svc).trace;
      ProcessedEventsAreCalls(pieces[1..], docType, title, svc);
      var t := ProcessChunks(pieces, docType, title, svc).trace;
      assert t == [Embed(c), Insert(svc.embed(c).value, docType, title, c)] + rest;
      forall i | 2 <= i < |t| ensures t[i].Embed? || t[i].Insert? {
        assert t[i] == rest[i - 2];
      }
    }
  }

  /**
   * `loadDocument`: ".pdf" paths are read and their text extracted, ".txt"
   * paths are read as text, any other path is refused before anything is
   * read; the text is then split and each piece embedded and stored.
   */
  function LoadDocument(path: string, docType: string, title: string, svc: Services): (l: Load)
    ensures EndsWith(path, ".pdf") ==> |l.trace| >= 1 && l.trace[0] == ReadPdf(path)
    ensures !EndsWith(path, ".pdf") && EndsWith(path, ".txt") ==> |l.trace| >= 1 && l.trace[0] == ReadText(path)
    ensures !EndsWith(path, ".pdf") && !EndsWith(path, ".txt") ==>
      l.trace == [] && l.result == Fail(PlainError("Unsupported file type: " + path))
    ensures l.trace != [] ==> OnlyCalls(l.trace[1..])
    ensures EndsWith(path, ".pdf") && svc.extractPdf(path).Failure? ==>
      l == Load([ReadPdf(path)], Fail(svc.extractPdf(path).error))
    ensures !EndsWith(path, ".pdf") && EndsWith(path, ".txt") && svc.readText(path).Failure? ==>
      l == Load([ReadText(path)], Fail(svc.readText(path).error))
    ensures EndsWith(path, ".pdf") && svc.extractPdf(path).Success? ==>
      ProcessesText(l, svc.extractPdf(path).value, docType, title, svc)
    ensures !EndsWith(path, ".pdf") && EndsWith(path, ".txt") && svc.readText(path).Success? ==>
      ProcessesText(l, svc.readText(path).value, docType, title, svc)
  {
    if EndsWith(path, ".pdf") then
      match svc.extractPdf(path)
      case Failure(e) => Load([ReadPdf(path)], Fail(e))
      case Success(text) => ThenProcess(ReadPdf(path), text, docType, title, svc)
    else if EndsWith(path, ".txt") then
      match svc.readText(path)
      case Failure(e) => Load([ReadText(path)], Fail(e))
      case Success(text) => ThenProcess(ReadText(path), text, docType, title, svc)
    else
      Load([], Fail(PlainError("Unsupported file type: " + path)))
  }

  /**
   * After its first (read) event, the load is exactly the loop over the
   * pieces of `text`: the same calls, and the same outcome, failed or not.
   */
  predicate ProcessesText(l: Load, text: string, docType: string, title: string, svc: Services)
  {
    var p := ProcessChunks(Chunks(text), docType, title, svc);
    |l.trace| >= 1 && l.trace[1..] == p.trace && l.result == p.result
  }

  /** After the read event, the loop over the text's pieces. */
  function ThenProcess(read: DocEvent, text: string, docType: string, title: string, svc: Services): (l: Load)
    ensures |l.trace| >= 1 && l.trace[0] == read && OnlyCalls(l.trace[1..])
    ensures ProcessesText(l, text, docType, title, svc)
  {
    var p := ProcessChunks(Chunks(text), docType, title, svc);
    ProcessedEventsAreCalls(Chunks(text), docType, title, svc);
    assert ([read] + p.trace)[1..] == p.trace;
    Load([read] + p.trace, p.result)
  }

  /** After a successful read, a pass in which every piece is stored embeds the whole text. */
  lemma ThenProcessStoresWholeText(read: DocEvent, text: string, docType: string, title: string, svc: Services)
    requires read.ReadPdf? || read.ReadText?
    requires forall i :: 0 <= i < |Chunks(text)| ==> Stored(svc, docType, title, Chunks(text)[i])
    ensures var l := ThenProcess(read, text, docType, title, svc);
      && l.result.Pass?
      && |l.trace| == 1 + 2 * |Chunks(text)|
      && Flatten(EmbeddedChunks(l.trace)) == text
  {
    var p := ProcessChunks(Chunks(text), docType, title, svc);
    ProcessedEmbedsEveryPiece(Chunks(text), docType, title, svc);
    var l := ThenProcess(read, text, docType, title, svc);
    assert l.trace == [read] + p.trace;
    EmbeddedChunksAppend([read], p.trace);
    assert EmbeddedChunks([read]) == [] by {
      assert [read][1..] == [];
    }
    assert EmbeddedChunks(l.trace) == Chunks(text);
  }

  /**
   * A document that is read and whose every piece is stored: the load
   * succeeds, makes one read then two calls per piece, and the pieces it
   * embeds join back into the document's text.
   */
  lemma LoadStoresWholeText(path: string, docType: string, title: string, svc: Services, text: string)
    requires EndsWith(path, ".pdf") ==> svc.extractPdf(path) == Success(text)
    requires !EndsWith(path, ".pdf") ==> EndsWith(path, ".txt") && svc.readText(path) == Success(text)
    requires forall i :: 0 <= i < |Chunks(text)| ==> Stored(svc, docType, title, Chunks(text)[i])
    ensures var l := LoadDocument(path, docType, title, svc);
      && l.result.Pass?
      && |l.trace| == 1 + 2 * |Chunks(text)|
      && Flatten(EmbeddedChunks(l.trace)) == text
  {
    var read := if EndsWith(path, ".pdf") then ReadPdf(path) else ReadText(path);
    assert LoadDocument(path, docType, title, svc) == ThenProcess(read, text, docType, title, svc);
    ThenProcessStoresWholeText(read, text, docType, title, svc);
  }

  /**
   * A document that is read but whose piece `k` is the first not stored:
   * the load fails, after storing the pieces before `k` in order and
   * embedding piece `k`, and touches no later piece.
   */
  lemma LoadStopsAtFirstFailure(path: string, docType: string, title: string, svc: Services, text: string, k: nat)
    requires EndsWith(path, ".pdf") ==> svc.extractPdf(path) == Success(text)
    requires !EndsWith(path, ".pdf") ==> EndsWith(path, ".txt") && svc.readText(path) == Success(text)
    requires k < |Chunks(text)|
    requires forall i :: 0 <= i < k ==> Stored(svc, docType, title, Chunks(text)[i])
    requires !Stored(svc, docType, title, Chunks(text)[k])
    ensures var l := LoadDocument(path, docType, title, svc);
      && l.result.Fail?
      && StoredInOrder(l.trace[1..], svc, docType, title, Chunks(text), k)
      && 2 * k + 1 < |l.trace| <= 2 * k + 3
      && l.trace[2 * k + 1] == Embed(Chunks(text)[k])
  {
    ProcessChunksStopsAtFirstFailure(Chunks(text), docType, title, svc, k);
  }
}
