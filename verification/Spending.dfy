/** Why the records of inputs and outputs are laid out alike: an input that spends an output selects the same block, matches
    the record kept for the output, and deletes it. */
module Spending {
  import opened ByteStrings
  import opened Reducer
  import U = UtxoBlocks

  /** The input names output k of transaction txHash, and shows a key with the hash the output pays to. */
  predicate SpendsOutput(h: Hashes, i: Input, txHash: Bytes, k: nat, o: Output)
    requires Spends(i.script) && Pays(o.script)
  {
    && i.prevTxHash == txHash && i.position == LittleEndian(k, 4)
    && h.KeyHash(i.script[2 + i.script[0]..]) == o.script[3..23]
  }

  /** Records match exactly when the input names the output. */
  lemma RecordsMatchIff(h: Hashes, i: Input, txHash: Bytes, blockHeight: nat, k: nat, o: Output)
    requires i.Valid() && o.Valid() && |txHash| == 32 && Spends(i.script) && Pays(o.script)
    ensures |InputRecord(h, i)| == |OutputRecord(txHash, blockHeight, k, o)| == U.RECORD
    ensures U.SameOutpoint(InputRecord(h, i), OutputRecord(txHash, blockHeight, k, o)) <==>
            i.prevTxHash == txHash && i.position == LittleEndian(k, 4)
    ensures U.Key(InputRecord(h, i)) == U.Key(OutputRecord(txHash, blockHeight, k, o)) <==>
            h.KeyHash(i.script[2 + i.script[0]..]) == o.script[3..23]
  {
    hide InputRecord, OutputRecord, LittleEndian, Hashes.KeyHash, Spends, Pays;
    InputRecordIs(h, i);
    OutputRecordIs(txHash, blockHeight, k, o);
  }

  /** The record of a spent output is erased by the record of the input: both select the same block, and there the deletion
      clears the slot the output was put into, unless an older record of the outpoint comes first. */
  lemma SpentIsErased(h: Hashes, i: Input, txHash: Bytes, blockHeight: nat, k: nat, o: Output, w: U.Placement, data: U.Bytes,
                      slot: nat)
    requires i.Valid() && o.Valid() && |txHash| == 32 && Spends(i.script) && Pays(o.script) && w.Valid()
    requires SpendsOutput(h, i, txHash, k, o)
    requires U.GoesTo(w, data, OutputRecord(txHash, blockHeight, k, o), slot)
    requires forall j :: 0 <= j < slot ==> !U.Matches(data, OutputRecord(txHash, blockHeight, k, o), j)
    ensures |InputRecord(h, i)| == U.RECORD
    ensures w.BlockOf(InputRecord(h, i)) == w.BlockOf(OutputRecord(txHash, blockHeight, k, o))
    ensures U.Deleted(U.Added(w, data, OutputRecord(txHash, blockHeight, k, o)), InputRecord(h, i)) ==
            U.WithSlot(data, slot, U.Zeros())
  {
    hide InputRecord, OutputRecord, LittleEndian, Hashes.KeyHash, Spends, Pays, U.GoesTo, U.Matches, U.SameOutpoint, U.Key;
    RecordsMatchIff(h, i, txHash, blockHeight, k, o);
    U.AddedThenSpent(w, data, OutputRecord(txHash, blockHeight, k, o), InputRecord(h, i), slot);
    w.SameBlock(InputRecord(h, i), OutputRecord(txHash, blockHeight, k, o));
  }
}
