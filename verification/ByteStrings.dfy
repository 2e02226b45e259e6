/** Buffers, files and C strings as bytes. */
module ByteStrings {
  type Bytes = seq<bv8>

  /** The bytes of a sequence of reads. */
  function Concat(pieces: seq<Bytes>): Bytes {
    if |pieces| == 0 then [] else pieces[0] + Concat(pieces[1..])
  }

  lemma {:induction false} ConcatMore(pieces: seq<Bytes>, last: Bytes)
    ensures Concat(pieces + [last]) == Concat(pieces) + last
  {
    if |pieces| == 0 {
      assert ([last])[1..] == [];
    } else {
      assert (pieces + [last])[1..] == pieces[1..] + [last];
      ConcatMore(pieces[1..], last);
    }
  }
}
