/** Data sub-blocks, section 15 of the GIF89a specification: a count byte, then that many data bytes. */
module SubBlocks {
  type Bytes = seq<nat>

  predicate AreBytes(s: Bytes) {
    forall i :: 0 <= i < |s| ==> s[i] < 256
  }

  /** The blocks as they stand in the file, without the terminator. */
  function Serialize(blocks: seq<Bytes>): Bytes {
    if blocks == [] then [] else [|blocks[0]|] + blocks[0] + Serialize(blocks[1..])
  }

  /** The data the blocks carry. */
  function Payload(blocks: seq<Bytes>): Bytes {
    if blocks == [] then [] else blocks[0] + Payload(blocks[1..])
  }

  /**
   Blocks a reader that keeps two bytes of carry can follow: none is empty or over-long, and only the
   last may be a single byte.
   */
  predicate WellCut(blocks: seq<Bytes>) {
    && (forall i :: 0 <= i < |blocks| ==> 1 <= |blocks[i]| <= 255 && AreBytes(blocks[i]))
    && (forall i :: 0 <= i < |blocks| - 1 ==> 2 <= |blocks[i]|)
  }

  /** All blocks but the last carry 255 bytes. */
  predicate FullButLast(blocks: seq<Bytes>) {
    forall i :: 0 <= i < |blocks| - 1 ==> |blocks[i]| == 255
  }

  lemma Regroup(a: Bytes, b: Bytes, c: Bytes, d: Bytes)
    ensures a + (b + c + d) == a + b + c + d && a + (b + d) == a + b + d
  {
  }

  lemma {:induction false} AppendBlock(blocks: seq<Bytes>, last: Bytes)
    ensures Serialize(blocks + [last]) == Serialize(blocks) + [|last|] + last
    ensures Payload(blocks + [last]) == Payload(blocks) + last
  {
    var all := blocks + [last];
    if blocks == [] {
      assert all[1..] == [];
    } else {
      assert all[1..] == blocks[1..] + [last];
      AppendBlock(blocks[1..], last);
      Regroup([|blocks[0]|] + blocks[0], Serialize(blocks[1..]), [|last|], last);
      Regroup(blocks[0], Payload(blocks[1..]), [], last);
    }
  }
}
