/** The decisions app.py takes around its collaborators: the upload size gate,
    the batch of chunks, metadatas and ids it builds from the extracted text,
    and, on the question side, the empty-retrieval branch and the prompt it
    composes. Extraction, the store's query and the completion call are outside
    this model: their results come in as parameters. */
module App {
  import opened Text
  import opened Chunker
  import opened VectorStore

  /** `MAX_FILE_SIZE`: 10 MiB. */
  const MaxFileSize: nat := 10 * 1024 * 1024

  datatype Option<T> = None | Some(value: T)

  /** An uploaded file as the app sees it: its name and its size in bytes. */
  datatype Upload = Upload(name: string, size: nat)

  /** The metadata of one chunk: `{"source": name, "chunk": number}`. */
  datatype ChunkMeta = ChunkMeta(source: string, chunk: nat)

  /** What the upload branch decides to do with a file. */
  datatype UploadPlan =
    | TooLarge
    | NoText
    | Submit(documents: seq<string>, metadatas: seq<ChunkMeta>, ids: seq<string>)

  /** What the user sees after an upload. */
  datatype UploadOutcome = FileTooLarge | ExtractionFailed | AddError(status: Status) | Processed

  /** The metadata list: entry i names the file and chunk number i + 1. */
  function ChunkMetadatas(name: string, n: nat): seq<ChunkMeta>
  {
    seq(n, i requires 0 <= i < n => ChunkMeta(name, i + 1))
  }

  /** One fresh id per chunk; `newId(i)` stands for the i-th `uuid.uuid4()`. */
  function ChunkIds(newId: nat -> string, n: nat): seq<string>
  {
    seq(n, i requires 0 <= i < n => newId(i))
  }

  /** The upload branch: refuse an oversized file before touching it, report a
      failed extraction (no text, or empty text), otherwise chunk the stripped
      text with the default parameters and pair each chunk with its metadata
      and id. */
  function PlanUpload(upload: Upload, extracted: Option<string>, newId: nat -> string): UploadPlan
  {
    if upload.size > MaxFileSize then TooLarge
    else if extracted.None? || extracted.value == [] then NoText
    else
      var documents := Chunks(Strip(extracted.value), DefaultChunkSize, DefaultOverlap);
      Submit(documents, ChunkMetadatas(upload.name, |documents|), ChunkIds(newId, |documents|))
  }

  /** The upload branch run against the store: `split_text`, then
      `add_documents`, whose errors the app catches and reports. */
  method HandleUpload(collection: Collection<ChunkMeta>, upload: Upload, extracted: Option<string>,
                      newId: nat -> string, storeFails: bool)
    returns (outcome: UploadOutcome)
    modifies collection
    ensures match PlanUpload(upload, extracted, newId)
      case TooLarge => outcome == FileTooLarge && collection.batches == old(collection.batches)
      case NoText => outcome == ExtractionFailed && collection.batches == old(collection.batches)
      case Submit(documents, metadatas, ids) =>
        var b := ValidBatch(AsDocs(documents), metadatas, ids);
        if b.documents == [] then
          outcome == AddError(NoValidDocuments) && collection.batches == old(collection.batches)
        else if storeFails then
          outcome == AddError(AddFailed) && collection.batches == old(collection.batches)
        else
          outcome == Processed && collection.batches == old(collection.batches) + [b]
  {
    if upload.size > MaxFileSize {
      return FileTooLarge;
    }
    if extracted.None? || extracted.value == [] {
      return ExtractionFailed;
    }
    var documents := SplitText(Strip(extracted.value), DefaultChunkSize, DefaultOverlap);
    var metadatas := ChunkMetadatas(upload.name, |documents|);
    var ids := ChunkIds(newId, |documents|);
    var status := AddDocuments(collection, AsDocs(documents), metadatas, ids, storeFails);
    outcome := if status == Added then Processed else AddError(status);
  }

  /** The size gate: a file is refused exactly when it is larger than 10 MiB
      (so a file of exactly 10 MiB goes through), and a refused file's content
      and ids play no part in the outcome. */
  lemma SizeGate(upload: Upload, extracted: Option<string>, newId: nat -> string,
                 extracted': Option<string>, newId': nat -> string)
    ensures PlanUpload(upload, extracted, newId) == TooLarge <==> upload.size > 10_485_760
    ensures upload.size > MaxFileSize ==>
      PlanUpload(upload, extracted, newId) == PlanUpload(upload, extracted', newId')
  {
  }

  /** An accepted upload with text yields three lists of one length: the
      chunks of the stripped text, metadata numbering the chunks 1..n in
      order under the file's name, and the ids in order. No chunk comes out
      only when the text is blank. */
  lemma UploadBatchAligned(upload: Upload, text: string, newId: nat -> string)
    requires upload.size <= MaxFileSize && text != []
    ensures var plan := PlanUpload(upload, Some(text), newId);
      plan.Submit? &&
      plan.documents == Chunks(Strip(text), DefaultChunkSize, DefaultOverlap) &&
      |plan.metadatas| == |plan.documents| && |plan.ids| == |plan.documents| &&
      (forall i :: 0 <= i < |plan.documents| ==>
        plan.metadatas[i].source == upload.name && plan.metadatas[i].chunk == i + 1 &&
        plan.ids[i] == newId(i)) &&
      (plan.documents == [] <==> Blank(text))
  {
    StripSpec(text);
    SingleChunk(Strip(text), DefaultChunkSize, DefaultOverlap);
  }

  /** Under the assumption that `uuid4` never repeats (modelled as `newId`
      being injective) the ids of one upload are pairwise distinct; the
      source itself checks nothing. */
  lemma IdsDistinct(newId: nat -> string, n: nat)
    requires forall i, j :: 0 <= i < j ==> newId(i) != newId(j)
    ensures forall i, j :: 0 <= i < j < n ==> ChunkIds(newId, n)[i] != ChunkIds(newId, n)[j]
  {
  }

  // ---------------------------------------------------------------------------
  // Question side

  /** What the question branch does with the texts the store returned. */
  datatype QueryPlan = NotAsked | NoRelevantInformation | Complete(prompt: string)

  /** The blank line put between two retrieved texts. */
  const Separator: string := "\n\n"

  /** The prompt built from the retrieved texts and the question. */
  function ComposePrompt(texts: seq<string>, question: string): string
  {
    "Context:\n" + Join(Separator, texts) + "\n\nQuestion: " + question + "\nAnswer:"
  }

  /** Nothing happens for an empty question; an empty retrieval is reported
      and no prompt is built (so no completion is requested); otherwise the
      prompt goes to the completion endpoint. */
  function PlanQuery(question: string, retrieved: seq<string>): QueryPlan
  {
    if question == [] then NotAsked
    else if retrieved == [] then NoRelevantInformation
    else Complete(ComposePrompt(retrieved, question))
  }

  lemma PlanQueryCases(question: string, retrieved: seq<string>)
    ensures PlanQuery(question, retrieved).Complete? <==> question != [] && retrieved != []
    ensures PlanQuery(question, retrieved) == NoRelevantInformation <==> question != [] && retrieved == []
    ensures question != [] && retrieved != [] ==>
      PlanQuery(question, retrieved) == Complete(ComposePrompt(retrieved, question))
  {
  }

  /** The frame of the prompt: it opens with "Context:\n" and the joined
      texts, and closes with "\n\nQuestion: ", the question and "\nAnswer:". */
  lemma PromptFrame(texts: seq<string>, question: string)
    ensures var p, j := ComposePrompt(texts, question), Join(Separator, texts);
      |p| == 9 + |j| + 12 + |question| + 8 &&
      p[..9] == "Context:\n" &&
      p[9..9 + |j|] == j &&
      p[9 + |j|..21 + |j|] == "\n\nQuestion: " &&
      p[21 + |j|..21 + |j| + |question|] == question &&
      p[21 + |j| + |question|..] == "\nAnswer:"
  {
    var j := Join(Separator, texts);
    var p := ComposePrompt(texts, question);
    assert p == "Context:\n" + j + "\n\nQuestion: " + question + "\nAnswer:";
  }

  /** A composed prompt is never blank, so the completion client's own
      empty-prompt guard never rejects it. */
  lemma PromptNotBlank(texts: seq<string>, question: string)
    ensures Strip(ComposePrompt(texts, question)) != []
  {
    var p := ComposePrompt(texts, question);
    StripSpec(p);
    assert p[0] == 'C' && !IsWhitespace(p[0]);
  }
}
