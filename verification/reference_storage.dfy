/**
 * The sidecar's JSON reference store, `JsonStorage` in
 * `python/sidecar/references/storage.py`: lookup by id, all-or-nothing batch
 * delete, patch update and the chunk corpus used for retrieval. Reading and
 * writing the JSON file are modelled by the `storedFile` field.
 */
module ReferenceStorage {
  import opened Wrappers
  import opened Strings
  import opened KeyedIndex
  import opened ReferenceSchemas

  datatype ResponseStatus = Ok | Error

  datatype StatusResponse = StatusResponse(status: ResponseStatus, message: string)

  /** What `delete` does: answer with a status, or raise `ValueError`. */
  datatype DeleteOutcome = Responded(response: StatusResponse) | RaisedValueError(message: string)

  const DeleteArgumentsMessage := "`delete` operation requires one of `ids` or `all_` input parameters"

  function NotFoundMessage(operation: string, referenceId: string): string {
    "Unable to " + operation + " " + referenceId + ": not found in storage"
  }

  /** A search token: non-empty, without spaces or capitals. */
  predicate IsToken(w: string) {
    w != [] && forall j :: 0 <= j < |w| ==> !IsSpace(w[j]) && !IsUpperLatin1(w[j])
  }

  /** `text.lower().split()`. */
  function Tokenize(text: string): (tokens: seq<string>)
    ensures forall i :: 0 <= i < |tokens| ==> IsToken(tokens[i])
  {
    LowerHasNoCapitals(text);
    Words(Lower(text))
  }

  /** The chunks of all references, reference by reference, in order. */
  function AllChunks(refs: seq<Reference>): seq<Chunk> {
    if refs == [] then [] else AllChunks(refs[..|refs| - 1]) + refs[|refs| - 1].chunks
  }

  function Texts(cs: seq<Chunk>): (ts: seq<string>)
    ensures |ts| == |cs|
  {
    seq(|cs|, i requires 0 <= i < |cs| => cs[i].text)
  }

  function TokenLists(cs: seq<Chunk>): (ts: seq<seq<string>>)
    ensures |ts| == |cs|
  {
    seq(|cs|, i requires 0 <= i < |cs| => Tokenize(cs[i].text))
  }

  /** The three corpus lists run in lockstep: entry `i` of each belongs to chunk `i`. */
  ghost predicate Aligned(chunks: seq<Chunk>, corpus: seq<string>, tokenized: seq<seq<string>>) {
    && |corpus| == |chunks|
    && |tokenized| == |chunks|
    && (forall i :: 0 <= i < |chunks| ==> corpus[i] == chunks[i].text && tokenized[i] == Tokenize(chunks[i].text))
  }

  /** Appending chunks with their texts and token lists keeps the lists in lockstep. */
  lemma AlignedAppend(chunks: seq<Chunk>, corpus: seq<string>, tokenized: seq<seq<string>>, more: seq<Chunk>)
    requires Aligned(chunks, corpus, tokenized)
    ensures Aligned(chunks + more, corpus + Texts(more), tokenized + TokenLists(more))
  {
    var c, t, k := chunks + more, corpus + Texts(more), tokenized + TokenLists(more);
    forall i | 0 <= i < |c| ensures t[i] == c[i].text && k[i] == Tokenize(c[i].text) {
      if i >= |chunks| {
        assert c[i] == more[i - |chunks|];
      }
    }
  }

  lemma {:induction false} TextsAppend(a: seq<Chunk>, b: seq<Chunk>)
    ensures Texts(a + b) == Texts(a) + Texts(b)
    ensures TokenLists(a + b) == TokenLists(a) + TokenLists(b)
  {
  }

  /** The dictionary `{ref.id: ref for ref in references}`. */
  function Index(refs: seq<Reference>): (d: OrderedDict<Reference>)
    ensures WellFormed(d)
    ensures d.entries.Keys == Ids(refs)
  {
    FromSeq(refs, RefId)
  }

  function Ids(refs: seq<Reference>): set<string> {
    KeySet(refs, RefId)
  }

  /** A batch delete succeeds exactly when every id is stored and no id is listed twice. */
  lemma DeleteSucceedsIff(refs: seq<Reference>, ids: seq<string>)
    ensures DelAll(Index(refs), ids).Deleted?
        <==> (forall i :: 0 <= i < |ids| ==> ids[i] in Ids(refs)) && NoDuplicates(ids)
  {
    DelAllSucceedsIff(Index(refs), ids);
  }

  /** With unique ids, a successful delete keeps exactly the other references, in their order. */
  lemma DeleteKeepsOthersInOrder(refs: seq<Reference>, ids: seq<string>)
    requires UniqueKeys(refs, RefId)
    requires DelAll(Index(refs), ids).Deleted?
    ensures Values(DelAll(Index(refs), ids).dict) == Retain(refs, RefId, ids)
  {
    FromSeqMirrors(refs, RefId);
    DelAllMirrors(Index(refs), refs, RefId, ids);
  }

  /** Deleting every stored id succeeds and leaves nothing. */
  lemma DeleteEverything(refs: seq<Reference>)
    ensures DelAll(Index(refs), Index(refs).keys).Deleted?
    ensures Values(DelAll(Index(refs), Index(refs).keys).dict) == []
  {
    var d := Index(refs);
    DelAllSucceedsIff(d, d.keys);
    DelAllEntries(d, d.keys);
    var rest := DelAll(d, d.keys).dict;
    assert rest.entries.Keys == {};
    WellFormedSize(rest);
  }

  /** With unique ids, patching a stored id replaces that one reference and keeps every other in place. */
  lemma UpdateReplacesOnlyTarget(refs: seq<Reference>, referenceId: string, patch: map<string, FieldValue>)
    requires UniqueKeys(refs, RefId)
    requires referenceId in Ids(refs)
    requires PatchableData(patch)
    ensures var d := Index(refs);
      && referenceId in d.entries
      && Values(Put(d, referenceId, ApplyPatch(d.entries[referenceId], patch))) == Patched(refs, referenceId, patch)
  {
    FromSeqMirrors(refs, RefId);
    var j :| 0 <= j < |refs| && RefId(refs[j]) == referenceId;
    PatchMirrors(Index(refs), refs, j, patch);
  }

  /** The stored list with the reference carrying `referenceId` patched in place. */
  function Patched(refs: seq<Reference>, referenceId: string, patch: map<string, FieldValue>): (ps: seq<Reference>)
    requires PatchableData(patch)
    ensures |ps| == |refs|
  {
    seq(|refs|, i requires 0 <= i < |refs| => if refs[i].id == referenceId then ApplyPatch(refs[i], patch) else refs[i])
  }

  lemma PatchMirrors(d: OrderedDict<Reference>, refs: seq<Reference>, j: nat, patch: map<string, FieldValue>)
    requires Mirrors(d, refs, RefId) && UniqueKeys(refs, RefId) && j < |refs|
    requires PatchableData(patch)
    ensures refs[j].id in d.entries
    ensures Values(Put(d, refs[j].id, ApplyPatch(d.entries[refs[j].id], patch))) == Patched(refs, refs[j].id, patch)
  {
    var k := refs[j].id;
    assert d.entries[RefId(refs[j])] == refs[j];
    PutMirrors(d, refs, RefId, k, ApplyPatch(refs[j], patch));
    PatchedIsReplaced(refs, j, patch);
  }

  /** With unique ids, patching by the id of `refs[j]` replaces exactly that reference by its patched copy. */
  lemma PatchedIsReplaced(refs: seq<Reference>, j: nat, patch: map<string, FieldValue>)
    requires UniqueKeys(refs, RefId) && j < |refs| && PatchableData(patch)
    ensures Patched(refs, refs[j].id, patch) == Replaced(refs, RefId, refs[j].id, ApplyPatch(refs[j], patch))
  {
    var k := refs[j].id;
    var a := Replaced(refs, RefId, k, ApplyPatch(refs[j], patch));
    var ps := Patched(refs, k, patch);
    forall i | 0 <= i < |refs| ensures a[i] == ps[i] {
      if RefId(refs[i]) == k {
        SameKeySameIndex(refs, RefId, i, j);
      }
    }
  }

  /**
   * A patch that names another id renames the reference in place: the slot
   * keeps its position and carries the new id, and the old id is no longer
   * stored, so a later lookup by it reports "not found".
   */
  lemma PatchRenames(refs: seq<Reference>, j: nat, patch: map<string, FieldValue>)
    requires UniqueKeys(refs, RefId) && j < |refs| && PatchableData(patch)
    requires IdField in patch && patch[IdField].s != refs[j].id
    ensures Patched(refs, refs[j].id, patch)[j].id == patch[IdField].s
    ensures refs[j].id !in Ids(Patched(refs, refs[j].id, patch))
  {
    var ps := Patched(refs, refs[j].id, patch);
    forall i | 0 <= i < |ps| ensures ps[i].id != refs[j].id {
      if i != j {
        assert RefId(refs[i]) != RefId(refs[j]);
      }
    }
  }

  /** The loop `for ref_id in ids: del refs[ref_id]`, stopping at the first id that is not there. */
  method DeleteEach(d: OrderedDict<Reference>, ids: seq<string>) returns (r: Deletion<Reference>)
    requires WellFormed(d)
    ensures r == DelAll(d, ids)
  {
    var refs := d;
    var i := 0;
    while i < |ids|
      invariant 0 <= i <= |ids|
      invariant WellFormed(refs)
      invariant DelAll(d, ids) == DelAll(refs, ids[i..])
    {
      var refId := ids[i];
      assert ids[i..][0] == refId && ids[i..][1..] == ids[i + 1..];
      if refId !in refs.entries {
        return KeyMissing(refId);
      }
      refs := Del(refs, refId);
      i := i + 1;
    }
    assert ids[i..] == [];
    return Deleted(refs);
  }

  class JsonStorage {
    const filepath: string
    /** The contents of the JSON file at `filepath`, as `load` reads and `save` writes them. */
    var storedFile: seq<Reference>
    var references: seq<Reference>
    var chunks: seq<Chunk>
    var corpus: seq<string>
    var tokenizedCorpus: seq<seq<string>>

    ghost predicate CorpusAligned()
      reads this
    {
      Aligned(chunks, corpus, tokenizedCorpus)
    }

    constructor (filepath: string, storedFile: seq<Reference>)
      ensures this.filepath == filepath && this.storedFile == storedFile
      ensures references == [] && chunks == [] && corpus == [] && tokenizedCorpus == []
      ensures CorpusAligned()
    {
      this.filepath := filepath;
      this.storedFile := storedFile;
      references := [];
      chunks := [];
      corpus := [];
      tokenizedCorpus := [];
    }

    /** `load`: append the stored references, then extend the corpus. */
    method Load()
      modifies this`references, this`chunks, this`corpus, this`tokenizedCorpus
      ensures references == old(references) + storedFile
      ensures chunks == old(chunks) + AllChunks(references)
      ensures corpus == old(corpus) + Texts(AllChunks(references))
      ensures tokenizedCorpus == old(tokenizedCorpus) + TokenLists(AllChunks(references))
      ensures old(CorpusAligned()) ==> CorpusAligned()
    {
      references := references + storedFile;
      CreateCorpus();
    }

    /** `save`. */
    method Save()
      modifies this`storedFile
      ensures storedFile == references
    {
      storedFile := references;
    }

    /** `get_reference`: the first reference with the id, or `None`. */
    method GetReference(referenceId: string) returns (r: Option<Reference>)
      ensures r.None? <==> forall i :: 0 <= i < |references| ==> references[i].id != referenceId
      ensures r.Some? ==> r.value.id == referenceId
      ensures r.Some? ==>
        exists i :: 0 <= i < |references| && references[i] == r.value && (forall j :: 0 <= j < i ==> references[j].id != referenceId)
    {
      var i := 0;
      while i < |references|
        invariant 0 <= i <= |references|
        invariant forall j :: 0 <= j < i ==> references[j].id != referenceId
      {
        if references[i].id == referenceId {
          return Some(references[i]);
        }
        i := i + 1;
      }
      return None;
    }

    /**
     * `delete`: with neither ids nor `all_` it raises; otherwise every id is
     * deleted from the id-keyed dictionary in turn, and the first id that is
     * not (or no longer) there ends the operation with an error before
     * anything is written back.
     */
    method Delete(referenceIds: seq<string>, all: bool) returns (r: DeleteOutcome)
      modifies this`references, this`storedFile
      ensures referenceIds == [] && !all ==>
        r == RaisedValueError(DeleteArgumentsMessage)
        && references == old(references) && storedFile == old(storedFile)
      ensures referenceIds != [] || all ==>
        var d := Index(old(references));
        match DelAll(d, if all then d.keys else referenceIds)
        case KeyMissing(id) =>
          && r == Responded(StatusResponse(Error, NotFoundMessage("delete", id)))
          && references == old(references) && storedFile == old(storedFile)
        case Deleted(rest) =>
          && r == Responded(StatusResponse(Ok, ""))
          && references == Values(rest) && storedFile == references
    {
      if referenceIds == [] && !all {
        return RaisedValueError(DeleteArgumentsMessage);
      }
      var d := Index(references);
      var outcome := DeleteEach(d, if all then d.keys else referenceIds);
      if outcome.KeyMissing? {
        return Responded(StatusResponse(Error, NotFoundMessage("delete", outcome.key)));
      }
      references := Values(outcome.dict);
      Save();
      r := Responded(StatusResponse(Ok, ""));
    }

    /** `update`: patch the reference stored under the id, or report that there is none. */
    method Update(referenceId: string, patch: map<string, FieldValue>) returns (r: StatusResponse)
      requires PatchableData(patch)
      modifies this`references, this`storedFile
      ensures var d := Index(old(references));
        if referenceId !in d.entries then
          && r == StatusResponse(Error, NotFoundMessage("update", referenceId))
          && references == old(references) && storedFile == old(storedFile)
        else
          && r == StatusResponse(Ok, "")
          && references == Values(Put(d, referenceId, ApplyPatch(d.entries[referenceId], patch)))
          && storedFile == references
    {
      var refs := Index(references);
      if referenceId !in refs.entries {
        return StatusResponse(Error, NotFoundMessage("update", referenceId));
      }
      var target := refs.entries[referenceId];
      refs := Put(refs, referenceId, ApplyPatch(target, patch));
      references := Values(refs);
      Save();
      r := StatusResponse(Ok, "");
    }

    /** `create_corpus`: append every chunk of every reference, its text and its token list. */
    method CreateCorpus()
      modifies this`chunks, this`corpus, this`tokenizedCorpus
      ensures chunks == old(chunks) + AllChunks(references)
      ensures corpus == old(corpus) + Texts(AllChunks(references))
      ensures tokenizedCorpus == old(tokenizedCorpus) + TokenLists(AllChunks(references))
      ensures old(CorpusAligned()) ==> CorpusAligned()
    {
      var i := 0;
      while i < |references|
        invariant 0 <= i <= |references|
        invariant chunks == old(chunks) + AllChunks(references[..i])
        invariant corpus == old(corpus) + Texts(AllChunks(references[..i]))
        invariant tokenizedCorpus == old(tokenizedCorpus) + TokenLists(AllChunks(references[..i]))
      {
        var ref := references[i];
        ghost var done := AllChunks(references[..i]);
        var j := 0;
        while j < |ref.chunks|
          invariant 0 <= j <= |ref.chunks|
          invariant chunks == old(chunks) + done + ref.chunks[..j]
          invariant corpus == old(corpus) + Texts(done + ref.chunks[..j])
          invariant tokenizedCorpus == old(tokenizedCorpus) + TokenLists(done + ref.chunks[..j])
        {
          var chunk := ref.chunks[j];
          TextsAppend(done + ref.chunks[..j], [chunk]);
          assert done + ref.chunks[..j + 1] == (done + ref.chunks[..j]) + [chunk];
          chunks := chunks + [chunk];
          corpus := corpus + [chunk.text];
          tokenizedCorpus := tokenizedCorpus + [Tokenize(chunk.text)];
          j := j + 1;
        }
        assert ref.chunks[..j] == ref.chunks;
        assert references[..i + 1][..i] == references[..i];
        i := i + 1;
      }
      assert references[..i] == references;
      if old(CorpusAligned()) {
        AlignedAppend(old(chunks), old(corpus), old(tokenizedCorpus), AllChunks(references));
      }
    }
  }
}
