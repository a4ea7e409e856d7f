/** The reference records the sidecar stores and the prompts read. */
module ReferenceSchemas {

  /** A text chunk of a reference's document, with the two metadata entries the prompts read. */
  datatype Chunk = Chunk(text: string, sourceFilename: string, pageNum: int)

  /** A value of a reference field, as it appears in the JSON store and in a patch. */
  datatype FieldValue =
    | Text(s: string)
    | Number(n: int)
    | Null
    | ListOf(items: seq<FieldValue>)

  /** A stored reference: its id, its other fields by name, and its chunks. */
  datatype Reference = Reference(id: string, fields: map<string, FieldValue>, chunks: seq<Chunk>)

  function RefId(r: Reference): string {
    r.id
  }

  /** The names under which a patch reaches the id and the chunks instead of the other fields. */
  const IdField := "id"
  const ChunksField := "chunks"

  /** A patch whose `id`, if it names one, is a string, and which leaves the chunks alone. */
  predicate PatchableData(data: map<string, FieldValue>) {
    (IdField in data ==> data[IdField].Text?) && ChunksField !in data
  }

  /**
   * `target.copy(update=patch.data)`: every field the patch names takes the
   * patch's value, the id included; everything else is kept.
   */
  function ApplyPatch(r: Reference, data: map<string, FieldValue>): (p: Reference)
    requires PatchableData(data)
    ensures IdField in data ==> p.id == data[IdField].s
    ensures IdField !in data ==> p.id == r.id
    ensures p.chunks == r.chunks
    ensures p.fields.Keys == r.fields.Keys + (data.Keys - {IdField})
    ensures forall k :: k in data && k != IdField ==> p.fields[k] == data[k]
    ensures forall k :: k in r.fields && k !in data ==> p.fields[k] == r.fields[k]
  {
    Reference(if IdField in data then data[IdField].s else r.id, r.fields + (data - {IdField}), r.chunks)
  }
}
