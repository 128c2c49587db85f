/** The records of an instruction IR, as the validator keeps them. */
module IrTypes {
  import opened Text
  import opened PositionIndex

  datatype Id = Id(name: string)

  datatype Range = Range(sourceId: Id, start: Position, end: Position)

  datatype Source = Source(id: Id, path: Text, text: Text, rootNodeId: Id)

  datatype Node = Node(id: Id, sourceId: Id, kind: string, range: Range, childIds: seq<Id>)

  const ROOT := "root"

  predicate RangeContains(outer: Range, inner: Range) {
    && outer.sourceId == inner.sourceId
    && outer.start.utf16Offset <= inner.start.utf16Offset
    && outer.end.utf16Offset >= inner.end.utf16Offset
  }

  /** An insertion-ordered JavaScript map from ids to records that carry their id. */
  datatype Table<V> = Table(keys: seq<Id>, items: map<Id, V>) {
    ghost predicate Valid() {
      && (forall k :: k in keys <==> k in items)
      && (forall i, j | 0 <= i < j < |keys| :: keys[i] != keys[j])
    }
  }

  predicate DuplicateFree(ids: seq<Id>) {
    forall i, j | 0 <= i < j < |ids| :: ids[i] != ids[j]
  }
}
