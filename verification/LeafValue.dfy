/** The row stored under a key in the primary tree: the value and its version metadata. */
module LeafValue {
  import opened Bytes
  import opened Params
  import opened UndoModel
  import opened UndoPage
  import TreePage

  predicate RowFits(row: Row) {
    && |row.value| == VALUE_SIZE && row.commitLsn < U64_LIMIT
    && (row.undo.Some? ==> row.undo.value.page < U64_LIMIT && row.undo.value.slot < 0x1_0000)
    && row.intentTxn < U64_LIMIT && row.intentLsn < U64_LIMIT
  }

  function EncodeRow(row: Row): (s: seq<Byte>)
    requires |row.value| == VALUE_SIZE
    ensures |s| == TreePage.LEAF_VALUE_SIZE
  {
    row.value + ToLe(row.commitLsn, 8) + ToLe(PtrPage(row.undo), 8) + ToLe(PtrSlot(row.undo), 2)
    + ToLe(Flags(row.tombstone, row.intent), 2) + ToLe(row.intentTxn, 8) + ToLe(row.intentLsn, 8)
  }

  function DecodeRow(s: seq<Byte>): Row
    requires |s| == TreePage.LEAF_VALUE_SIZE
  {
    var flags := ReadLe(s, 1042, 2);
    Row(s[..VALUE_SIZE], ReadLe(s, 1024, 8), PtrOf(ReadLe(s, 1032, 8), ReadLe(s, 1040, 2)),
        flags % 2 == 1, (flags / 2) % 2 == 1, ReadLe(s, 1044, 8), ReadLe(s, 1052, 8))
  }

  /** Decoding gives back the row that was encoded, exactly when it does not point to undo page 0. */
  lemma RowRoundTrip(row: Row)
    requires RowFits(row)
    ensures DecodeRow(EncodeRow(row)) == row <==> !(row.undo.Some? && row.undo.value.page == 0)
    ensures row.undo.Some? && row.undo.value.page == 0 ==>
              DecodeRow(EncodeRow(row)) == row.(undo := None)
  {
    hide ToLe, FromLe;
    var s := EncodeRow(row);
    var p1032 := row.value + ToLe(row.commitLsn, 8);
    var p1040 := p1032 + ToLe(PtrPage(row.undo), 8);
    var p1042 := p1040 + ToLe(PtrSlot(row.undo), 2);
    var p1044 := p1042 + ToLe(Flags(row.tombstone, row.intent), 2);
    var p1052 := p1044 + ToLe(row.intentTxn, 8);
    assert s == p1052 + ToLe(row.intentLsn, 8) && s[..|s|] == s;
    SplitPrefix(s, p1052, ToLe(row.intentLsn, 8));
    SplitPrefix(s, p1044, ToLe(row.intentTxn, 8));
    SplitPrefix(s, p1042, ToLe(Flags(row.tombstone, row.intent), 2));
    SplitPrefix(s, p1040, ToLe(PtrSlot(row.undo), 2));
    SplitPrefix(s, p1032, ToLe(PtrPage(row.undo), 8));
    SplitPrefix(s, row.value, ToLe(row.commitLsn, 8));
    Pow256Values();
    LeRoundTrip(row.commitLsn, 8);
    LeRoundTrip(PtrPage(row.undo), 8);
    SmallLe(PtrSlot(row.undo));
    SmallLe(Flags(row.tombstone, row.intent));
    LeRoundTrip(row.intentTxn, 8);
    LeRoundTrip(row.intentLsn, 8);
  }
}
