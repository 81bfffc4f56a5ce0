/** The validation step of `add_documents` in utils/vector_store.py: it walks
    the documents, metadatas and ids together (as `zip` does, so only up to the
    shortest of the three), keeps a position only when its document is a string
    that is not blank, stores the stripped document, raises `ValueError` when
    nothing survives, and otherwise submits the three filtered lists to the
    collection, re-raising the collection's failure. */
module VectorStore {
  import opened Text

  /** An entry of the `documents` argument: a Python `str`, or any other object. */
  datatype Doc = Str(text: string) | Other

  /** Three parallel lists, as `collection.add` receives them. */
  datatype Batch<M> = Batch(documents: seq<string>, metadatas: seq<M>, ids: seq<string>)

  /** How `add_documents` ends: it returns, it raises `ValueError` because no
      document is valid, or it re-raises the error of `collection.add`. */
  datatype Status = Added | NoValidDocuments | AddFailed

  /** `isinstance(doc, str) and doc.strip()`. */
  predicate IsValid(doc: Doc)
  {
    doc.Str? && Strip(doc.text) != []
  }

  /** How many triples `zip(documents, metadatas, ids)` yields. */
  function ZipLength<M>(documents: seq<Doc>, metadatas: seq<M>, ids: seq<string>): nat
  {
    Min(Min(|documents|, |metadatas|), |ids|)
  }

  /** The three lists once the loop has examined the first `n` triples. */
  function Filtered<M>(documents: seq<Doc>, metadatas: seq<M>, ids: seq<string>, n: nat): (b: Batch<M>)
    requires n <= ZipLength(documents, metadatas, ids)
    ensures |b.documents| == |b.metadatas| == |b.ids| <= n
  {
    if n == 0 then Batch([], [], [])
    else
      var b := Filtered(documents, metadatas, ids, n - 1);
      if IsValid(documents[n - 1]) then
        Batch(b.documents + [Strip(documents[n - 1].text)], b.metadatas + [metadatas[n - 1]], b.ids + [ids[n - 1]])
      else b
  }

  /** The batch `add_documents` submits: every triple of the zip filtered. */
  function ValidBatch<M>(documents: seq<Doc>, metadatas: seq<M>, ids: seq<string>): Batch<M>
  {
    Filtered(documents, metadatas, ids, ZipLength(documents, metadatas, ids))
  }

  /** The validation loop of `add_documents`, appending to three lists. */
  method ValidateBatch<M>(documents: seq<Doc>, metadatas: seq<M>, ids: seq<string>)
    returns (validDocuments: seq<string>, validMetadatas: seq<M>, validIds: seq<string>)
    ensures Batch(validDocuments, validMetadatas, validIds) == ValidBatch(documents, metadatas, ids)
  {
    validDocuments, validMetadatas, validIds := [], [], [];
    var n := ZipLength(documents, metadatas, ids);
    for i := 0 to n
      invariant Batch(validDocuments, validMetadatas, validIds) == Filtered(documents, metadatas, ids, i)
    {
      var doc, meta, id := documents[i], metadatas[i], ids[i];
      if IsValid(doc) {
        validDocuments := validDocuments + [Strip(doc.text)];
        validMetadatas := validMetadatas + [meta];
        validIds := validIds + [id];
      }
    }
  }

  /** The vector store collection, seen only through the batches it accepts. */
  class Collection<M> {
    /** Every batch `add` has stored, oldest first. */
    var batches: seq<Batch<M>>

    /** `collection.add`: the store either takes the whole batch or fails and
        takes nothing; which one happens is decided outside this model and is
        given as `fails`. */
    method Add(batch: Batch<M>, fails: bool) returns (ok: bool)
      modifies this
      ensures ok == !fails
      ensures batches == if ok then old(batches) + [batch] else old(batches)
    {
      ok := !fails;
      if ok {
        batches := batches + [batch];
      }
    }
  }

  /** `add_documents`: validate, refuse an empty batch, then submit it. */
  method AddDocuments<M>(collection: Collection<M>, documents: seq<Doc>, metadatas: seq<M>, ids: seq<string>,
                         storeFails: bool)
    returns (status: Status)
    modifies collection
    ensures var b := ValidBatch(documents, metadatas, ids);
      if b.documents == [] then
        status == NoValidDocuments && collection.batches == old(collection.batches)
      else if storeFails then
        status == AddFailed && collection.batches == old(collection.batches)
      else
        status == Added && collection.batches == old(collection.batches) + [b]
  {
    var validDocuments, validMetadatas, validIds := ValidateBatch(documents, metadatas, ids);
    if validDocuments == [] {
      return NoValidDocuments;
    }
    var ok := collection.Add(Batch(validDocuments, validMetadatas, validIds), storeFails);
    status := if ok then Added else AddFailed;
  }

  // ---------------------------------------------------------------------------
  // What the filter keeps

  /** The positions among the first `n` whose document is valid, in increasing order. */
  function KeptPositions(documents: seq<Doc>, n: nat): (p: seq<nat>)
    requires n <= |documents|
    ensures forall j :: 0 <= j < |p| ==> p[j] < n && IsValid(documents[p[j]])
    ensures forall j, j' :: 0 <= j < j' < |p| ==> p[j] < p[j']
    ensures forall i :: 0 <= i < n && IsValid(documents[i]) ==> i in p
  {
    if n == 0 then []
    else KeptPositions(documents, n - 1) + (if IsValid(documents[n - 1]) then [n - 1] else [])
  }

  lemma {:induction false} FilteredAt<M>(documents: seq<Doc>, metadatas: seq<M>, ids: seq<string>, n: nat)
    requires n <= ZipLength(documents, metadatas, ids)
    ensures var b, p := Filtered(documents, metadatas, ids, n), KeptPositions(documents, n);
      |b.documents| == |p| &&
      forall j :: 0 <= j < |p| ==>
        b.documents[j] == Strip(documents[p[j]].text) && b.metadatas[j] == metadatas[p[j]] && b.ids[j] == ids[p[j]]
  {
    if n > 0 {
      FilteredAt(documents, metadatas, ids, n - 1);
    }
  }

  /** The submitted batch holds exactly the valid positions of the zip, in
      their original order, each document stripped and still paired with its
      own metadata and id. */
  lemma ValidBatchAt<M>(documents: seq<Doc>, metadatas: seq<M>, ids: seq<string>)
    ensures var b, p := ValidBatch(documents, metadatas, ids),
                        KeptPositions(documents, ZipLength(documents, metadatas, ids));
      |b.documents| == |b.metadatas| == |b.ids| == |p| &&
      (forall i :: 0 <= i < ZipLength(documents, metadatas, ids) ==> (i in p <==> IsValid(documents[i]))) &&
      (forall j, j' :: 0 <= j < j' < |p| ==> p[j] < p[j']) &&
      (forall j :: 0 <= j < |p| ==>
        b.documents[j] == Strip(documents[p[j]].text) && b.metadatas[j] == metadatas[p[j]] && b.ids[j] == ids[p[j]])
  {
    FilteredAt(documents, metadatas, ids, ZipLength(documents, metadatas, ids));
  }

  /** The batch is empty, so `ValueError` is raised, exactly when no examined
      document is valid. */
  lemma NothingValid<M>(documents: seq<Doc>, metadatas: seq<M>, ids: seq<string>)
    ensures ValidBatch(documents, metadatas, ids).documents == [] <==>
      forall i :: 0 <= i < ZipLength(documents, metadatas, ids) ==> !IsValid(documents[i])
  {
    var z := ZipLength(documents, metadatas, ids);
    FilteredAt(documents, metadatas, ids, z);
    var p := KeptPositions(documents, z);
    if p != [] {
      assert IsValid(documents[p[0]]);
    }
  }

  lemma {:induction false} FilteredPrefix<M>(documents: seq<Doc>, metadatas: seq<M>, ids: seq<string>,
                                             documents': seq<Doc>, metadatas': seq<M>, ids': seq<string>, n: nat)
    requires n <= ZipLength(documents, metadatas, ids) && n <= ZipLength(documents', metadatas', ids')
    requires documents[..n] == documents'[..n] && metadatas[..n] == metadatas'[..n] && ids[..n] == ids'[..n]
    ensures Filtered(documents, metadatas, ids, n) == Filtered(documents', metadatas', ids', n)
  {
    if n > 0 {
      assert documents[..n - 1] == documents[..n][..n - 1];
      assert documents'[..n - 1] == documents'[..n][..n - 1];
      assert metadatas[..n - 1] == metadatas[..n][..n - 1];
      assert metadatas'[..n - 1] == metadatas'[..n][..n - 1];
      assert ids[..n - 1] == ids[..n][..n - 1];
      assert ids'[..n - 1] == ids'[..n][..n - 1];
      FilteredPrefix(documents, metadatas, ids, documents', metadatas', ids', n - 1);
      assert documents[n - 1] == documents[..n][n - 1] == documents'[n - 1];
      assert metadatas[n - 1] == metadatas[..n][n - 1] == metadatas'[n - 1];
      assert ids[n - 1] == ids[..n][n - 1] == ids'[n - 1];
    }
  }

  /** `zip` truncates: what lies beyond the shortest of the three lists is
      never looked at. */
  lemma ZipTruncates<M>(documents: seq<Doc>, metadatas: seq<M>, ids: seq<string>)
    ensures var z := ZipLength(documents, metadatas, ids);
      ValidBatch(documents, metadatas, ids) == ValidBatch(documents[..z], metadatas[..z], ids[..z])
  {
    var z := ZipLength(documents, metadatas, ids);
    assert ZipLength(documents[..z], metadatas[..z], ids[..z]) == z;
    FilteredPrefix(documents, metadatas, ids, documents[..z], metadatas[..z], ids[..z], z);
  }

  /** Wraps each string as a Python `str` object. */
  function AsDocs(texts: seq<string>): (r: seq<Doc>)
    ensures |r| == |texts| && forall j :: 0 <= j < |r| ==> r[j] == Str(texts[j])
    ensures forall j :: 0 <= j < |r| ==> (IsValid(r[j]) <==> Strip(texts[j]) != [])
  {
    seq(|texts|, j requires 0 <= j < |texts| => Str(texts[j]))
  }

  lemma {:induction false} FilteredAllValid<M>(texts: seq<string>, metadatas: seq<M>, ids: seq<string>, n: nat)
    requires |texts| == |metadatas| == |ids| && n <= |texts|
    requires forall j :: 0 <= j < |texts| ==> texts[j] != [] && Strip(texts[j]) == texts[j]
    ensures Filtered(AsDocs(texts), metadatas, ids, n) == Batch(texts[..n], metadatas[..n], ids[..n])
  {
    if n > 0 {
      FilteredAllValid(texts, metadatas, ids, n - 1);
      var t := texts[n - 1];
      assert AsDocs(texts)[n - 1] == Str(t) && Strip(t) == t != [];
      PrefixSnoc(texts, n);
      PrefixSnoc(metadatas, n);
      PrefixSnoc(ids, n);
    }
  }

  lemma PrefixSnoc<T>(s: seq<T>, n: nat)
    requires 0 < n <= |s|
    ensures s[..n] == s[..n - 1] + [s[n - 1]]
  {
  }

  /** The filter is idempotent: filtering the submitted batch again gives it back. */
  lemma FilterIdempotent<M>(documents: seq<Doc>, metadatas: seq<M>, ids: seq<string>)
    ensures var b := ValidBatch(documents, metadatas, ids);
      ValidBatch(AsDocs(b.documents), b.metadatas, b.ids) == b
  {
    var b := ValidBatch(documents, metadatas, ids);
    var p := KeptPositions(documents, ZipLength(documents, metadatas, ids));
    ValidBatchAt(documents, metadatas, ids);
    forall j | 0 <= j < |b.documents|
      ensures b.documents[j] != [] && Strip(b.documents[j]) == b.documents[j]
    {
      StripIdempotent(documents[p[j]].text);
    }
    FilteredAllValid(b.documents, b.metadatas, b.ids, |b.documents|);
    assert b.documents[..|b.documents|] == b.documents;
    assert b.metadatas[..|b.documents|] == b.metadatas;
    assert b.ids[..|b.documents|] == b.ids;
  }

  /** One empty document among four valid ones: exactly the four valid ones
      are submitted, in order, and the batch is not aborted. */
  lemma OneEmptyAmongFour<M>(a: string, b: string, c: string, d: string, metadatas: seq<M>, ids: seq<string>)
    requires Strip(a) != [] && Strip(b) != [] && Strip(c) != [] && Strip(d) != []
    requires |metadatas| == 5 && |ids| == 5
    ensures ValidBatch([Str(a), Str(b), Str(""), Str(c), Str(d)], metadatas, ids)
         == Batch([Strip(a), Strip(b), Strip(c), Strip(d)],
                  [metadatas[0], metadatas[1], metadatas[3], metadatas[4]],
                  [ids[0], ids[1], ids[3], ids[4]])
  {
    var docs := [Str(a), Str(b), Str(""), Str(c), Str(d)];
    assert Filtered(docs, metadatas, ids, 2) == Batch([Strip(a), Strip(b)], metadatas[..2], ids[..2]);
    assert Filtered(docs, metadatas, ids, 3) == Batch([Strip(a), Strip(b)], metadatas[..2], ids[..2]);
    assert Filtered(docs, metadatas, ids, 4)
        == Batch([Strip(a), Strip(b), Strip(c)], [metadatas[0], metadatas[1], metadatas[3]], [ids[0], ids[1], ids[3]]);
  }
}
