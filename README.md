# PDF-Chat: the chunker, the document filter and the app's decisions

PDF-Chat is a Streamlit application that answers questions about an uploaded PDF. It extracts
the PDF's text, cuts it into overlapping windows (`split_text`), stores those windows in a
ChromaDB collection (`add_documents`), and answers a question by retrieving similar windows and
sending them, with the question, to an OpenAI completion endpoint.

This project models the logic the application owns. Extraction, embedding, similarity search and
text generation belong to external services, so they are not modelled.

- `Text.dfy` (module `Text`): the Python string operations the code relies on. These are
  clamped slicing `s[i:j]`, `str.strip()` over Python's whitespace set, and `sep.join(xs)`.
- `Chunker.dfy` (module `Chunker`): `split_text`.
  - `SplitText` is the source's `while` loop, proved equal to the recursive specification
    `Chunks`, which is built from `ChunksFrom`.
  - Lemmas give the closed form of chunk `k`, the number of chunks, the shape of each chunk, the
    overlap between neighbours, the round trip, and the edge cases.
- `VectorStore.dfy` (module `VectorStore`): `add_documents`.
  - `ValidateBatch` is the `for ... in zip(...)` loop that fills three lists.
  - `Collection` is the store, seen only through the batches it accepts.
  - `AddDocuments` ties validation, the `ValueError` for an empty batch and the submission together.
  - Lemmas state which positions are kept, with what pairing and in what order.
- `App.dfy` (module `App`): the upload branch and the question branch of `app.py`. The upload
  branch covers the 10 MiB size gate, extraction failure, chunking of the stripped text, the
  metadata and id lists, and submission. The question branch covers the empty-retrieval branch
  and the exact prompt text.

Strings are sequences of code points, as Python's `len` and slicing count them.

What the loop of `split_text` (`app.py:39-43`) does at its edges:

- It yields `ceil(len / (chunkSize - overlap))` chunks (`Chunker.ChunkCount`), and `""` gives `[]`.
- A text with `chunkSize - overlap < len <= chunkSize` and `len <= 2 * (chunkSize - overlap)`
  gives two chunks: the whole text, then its last `len - (chunkSize - overlap)` characters again
  (`Chunker.TwoChunks`, `Chunker.SingleChunk`). The second bound always holds with the defaults
  1000/100. Without it the text gives more chunks, for example 5 for `chunkSize = 10`,
  `overlap = 8` and `len = 9`.
- Nothing checks `overlap < chunkSize`, and on a non-empty text the loop does not terminate
  otherwise. Here it is a precondition.

## Model

| member | source | states |
|---|---|---|
| Text.Slice | app.py:41 | Python's `text[start:end]` for non-negative bounds: its length is the clamped difference, and character k is `text[start + k]` |
| Text.Drop | app.py:41 | `s[i:]`: empty when `i` is past the end, otherwise the suffix from `i` |
| Text.TrimStartSpec | utils/vector_store.py:68 | `lstrip` removes a whitespace-only prefix and nothing else: the result is a suffix of the input, everything removed is whitespace, and the result is empty or starts with a non-whitespace character |
| Text.TrimEndSpec | utils/vector_store.py:68 | `rstrip`, the mirror image: a prefix of the input, only whitespace removed, and the result is empty or ends with a non-whitespace character |
| Text.StripSpec | utils/vector_store.py:68 | `doc.strip()` is empty exactly when `doc` is all whitespace; otherwise the result begins and ends with a non-whitespace character; it is never longer than `doc` |
| Text.StripIdempotent | utils/vector_store.py:68-69 | stripping a stripped document changes nothing |
| Text.Join | app.py:123 | `sep.join(xs)` of one element is that element; its length is the sum of the element lengths plus one separator between each pair |
| Text.JoinAt | app.py:123 | every element of the join sits at its offset, in order, and the separator follows every element but the last |
| Chunker.ChunksFrom | app.py:39-43 | the windows the loop still emits from cursor `start`: each is non-empty and at most `chunkSize` long, and there are none exactly when the cursor has reached the end of the text |
| Chunker.SplitText | app.py:27-44 | the loop (cursor from 0, slice `[start:start+chunkSize]`, append, move to `end - overlap`) returns exactly `Chunks(text, chunkSize, overlap)` |
| Chunker.ChunksFromAt | app.py:39-43 | the k-th window emitted from cursor `start` is the clamped slice at `start + k*(chunkSize - overlap)` |
| Chunker.ChunkAt | app.py:39-43 | chunk k is `text[k*step : min(k*step + chunkSize, len)]` with `step = chunkSize - overlap`, and `k*step < len` |
| Chunker.ChunksFromCount | app.py:39 | the loop stops at the first cursor position at or past the end of the text |
| Chunker.ChunkCount | app.py:39-43 | the number of chunks is `ceil(len(text) / (chunkSize - overlap))`, so empty text gives none |
| Chunker.ChunkShape | app.py:40-41 | every chunk is non-empty and at most `chunkSize` long, and a chunk shorter than `chunkSize` ends exactly at the end of the text |
| Chunker.ChunkOverlap | app.py:43 | when chunk k is full and chunk k+1 exists, the last `overlap` characters of chunk k are the first `overlap` characters of chunk k+1 |
| Chunker.DropOverlapsFrom | app.py:39-43 | the windows from cursor `start`, each without its first `overlap` characters, concatenate to the text from `start + overlap` |
| Chunker.RoundTrip | app.py:27-44 | round trip: the first chunk followed by every later chunk minus its first `overlap` characters is the original text |
| Chunker.SingleChunk | app.py:39-44 | empty text gives no chunks; there is exactly one chunk iff `0 < len <= chunkSize - overlap`, and then it is the whole text |
| Chunker.TwoChunks | app.py:39-44 | a text with `step < len <= chunkSize` and `len <= 2*step` gives two chunks: the whole text, then its suffix from `step`, which is at most `overlap` long |
| Chunker.FullTextTwoChunks | app.py:39-44 | a text of exactly `chunkSize` characters gives two chunks, the first the whole text and the second `overlap` long, for `0 < overlap <= chunkSize / 2` |
| Chunker.DefaultWindows | app.py:27 | with the defaults 1000/100, a 2500-character text gives the windows `[0:1000]`, `[900:1900]` and `[1800:2500]` |
| VectorStore.Filtered | utils/vector_store.py:67-74 | after examining the first n triples, the three filtered lists have one common length, at most n |
| VectorStore.ValidateBatch | utils/vector_store.py:63-74 | the validation loop's three lists are exactly `ValidBatch` of the inputs |
| VectorStore.Collection.Add | utils/vector_store.py:86-90 | `collection.add` either appends the whole batch or fails and leaves the store unchanged, reporting which |
| VectorStore.AddDocuments | utils/vector_store.py:53-94 | an empty filtered batch raises `ValueError` with nothing submitted; otherwise exactly the filtered batch is submitted once, and a store failure is re-raised |
| VectorStore.KeptPositions | utils/vector_store.py:67-68 | the kept positions are strictly increasing, each below n and valid, and every valid position below n is among them |
| VectorStore.FilteredAt | utils/vector_store.py:67-71 | entry j of each filtered list comes from kept position j: the stripped document, its own metadata and its own id |
| VectorStore.ValidBatchAt | utils/vector_store.py:67-71 | a position of the zip is kept iff its document is a `str` with non-blank `strip()`; kept entries stay in order, stay paired, and are stored stripped |
| VectorStore.NothingValid | utils/vector_store.py:76-79 | the batch is empty, and `ValueError` is raised, exactly when no examined document is valid |
| VectorStore.FilteredPrefix | utils/vector_store.py:67 | the filter over the first n triples depends on nothing beyond them |
| VectorStore.ZipTruncates | utils/vector_store.py:67 | `zip` truncates: only the first `min` of the three lengths are examined, and the rest is ignored |
| VectorStore.AsDocs | app.py:85 | the chunks passed to `add_documents` are all Python `str` values, so `isinstance` rejects none of them and a chunk is valid exactly when its `strip()` is non-empty |
| VectorStore.FilteredAllValid | utils/vector_store.py:67-71 | when every document is already stripped and non-empty, filtering keeps every triple unchanged |
| VectorStore.FilterIdempotent | utils/vector_store.py:67-71 | filtering the submitted batch again gives it back unchanged |
| VectorStore.OneEmptyAmongFour | utils/vector_store.py:67-79 | four valid documents and one empty one give exactly the four valid ones, in order with their metadata and ids, and no `ValueError` |
| App.HandleUpload | app.py:64-96 | an oversized file is refused and an extraction failure is reported, both with nothing stored; otherwise the stripped text is chunked with the defaults, paired with metadata and ids, and submitted, and any `add_documents` error is reported |
| App.SizeGate | app.py:25 | a file is refused iff its size exceeds 10 485 760 bytes (exactly 10 MiB passes), whatever its content |
| App.UploadBatchAligned | app.py:85-87 | the documents, metadatas and ids have one length; metadata i is `{source: name, chunk: i + 1}`; id i is the i-th fresh id; no chunk comes out iff the text is blank |
| App.IdsDistinct | app.py:87 | if the id source never repeats, the ids of one upload are pairwise distinct |
| App.PlanQueryCases | app.py:111-124 | a prompt is built iff the question is non-empty and the retrieval is non-empty; an empty retrieval reports "no relevant information" and builds no prompt; otherwise the prompt is the one `ComposePrompt` builds from the retrieved texts and the question |
| App.PromptFrame | app.py:123-124 | the prompt is `"Context:\n"`, the texts joined by a blank line, `"\n\nQuestion: "`, the question, then `"\nAnswer:"`, at the stated positions and with the stated length |
| App.PromptNotBlank | utils/openai_connector.py:35-38 | a composed prompt is never blank, so the completion client's empty-prompt check never fires on it |

## Left out

- Chunker.SplitText: requires `overlap < chunkSize`. The source does not check this. With
  `overlap >= chunkSize` the cursor never advances, so on a non-empty text the loop runs
  forever, which a terminating model cannot express. The precondition also excludes
  `split_text("", c, o)` with `o >= c`, which terminates at once and returns `[]`. The
  application only calls it with 1000/100.
  `chunkSize` and `overlap` are also natural numbers here. Python accepts a negative
  `overlap`, and then the loop terminates but skips characters between windows. That case is
  not modelled.
- Chunker.TwoChunks: also requires `len <= 2 * (chunkSize - overlap)`. Without it a text no
  longer than `chunkSize` can give more than two chunks, for example `chunkSize = 10`,
  `overlap = 8`, `len = 9`.
- Chunker.FullTextTwoChunks: requires `0 < overlap <= chunkSize / 2`. With `overlap = 0` a text of
  `chunkSize` characters gives one chunk, and with a larger overlap it gives more than two.
- App.IdsDistinct: assumes that `uuid.uuid4()` never repeats, modelled as an injective id
  source `newId`. The source itself checks nothing.
- The Streamlit user interface (page layout, widgets, spinners, success and error messages) is
  not modelled. Only which outcome is reported is modelled (`App.UploadOutcome`, `App.QueryPlan`).
- Logging and `print` calls are left out. They have no effect on the results.
- Writing the upload to a temporary file and deleting it on every path (app.py:70-75,
  app.py:100-104) is left out. This is file-system I/O.
- PDF text extraction (utils/pdf_processor.py) is a parameter, `extracted: Option<string>`.
  `None` stands for every failure that function reports. The generic exception handler around
  the upload branch (app.py:97-99) is not modelled separately.
- `uuid.uuid4()` is randomness. It is the parameter `newId: nat -> string`.
- ChromaDB client and collection creation, the OpenAI embedding function and `query_collection`
  (utils/vector_store.py:23-51, utils/vector_store.py:96-115) are external services.
  - The retrieved texts are a parameter of `App.PlanQuery`.
  - How many texts come back (`n_results = 5`) and their similarity order are not modelled.
- `collection.add` is modelled as all-or-nothing, with its failure given as a parameter. Partial
  writes inside ChromaDB are not modelled.
- `generate_response` (utils/openai_connector.py) is a network call. The model stops at the
  prompt that is sent (`App.QueryPlan.Complete`), and the answer and its fallback message are
  left out.
- The Ask button is assumed pressed. A question-branch exception (app.py:132-134) is not
  modelled.
- The check for the OpenAI API key at import time is configuration, not logic.
- Python strings may hold lone surrogate code points, which Dafny's `char` cannot represent.
  Such text is outside the model.
- Documents that are not strings are modelled by one constructor, `VectorStore.Doc.Other`,
  because the filter only asks whether a document is a `str`.
