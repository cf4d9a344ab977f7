/** HPACK (RFC 7541) as the reassembler sees it: an opaque, stateful, deterministic decoder.
    `decode` is one call of `DecodeFull`: the new decoder state and either a field list or an error. */
module Hpack {
  import opened Basics

  datatype Field = Field(name: string, value: string)

  datatype Decoded = Fields(fields: seq<Field>) | BadBlock(message: string)

  datatype Codec<!D> = Codec(initial: D, decode: (D, Bytes) -> (D, Decoded))

  /** The decoder state after decoding `blocks` in order. */
  function DecoderAfter<D>(c: Codec<D>, blocks: seq<Bytes>): D {
    if blocks == [] then c.initial
    else c.decode(DecoderAfter(c, blocks[..|blocks| - 1]), blocks[|blocks| - 1]).0
  }

  /** What block number `k` decodes to when every earlier block was decoded before it. */
  function DecodedAt<D>(c: Codec<D>, blocks: seq<Bytes>, k: nat): Decoded
    requires k < |blocks|
  {
    c.decode(DecoderAfter(c, blocks[..k]), blocks[k]).1
  }

  ghost predicate AllDecode<D>(c: Codec<D>, blocks: seq<Bytes>) {
    forall k :: 0 <= k < |blocks| ==> DecodedAt(c, blocks, k).Fields?
  }

  /** Appending one block decodes it in the state the others left, and disturbs none of them. */
  lemma DecodeSnoc<D>(c: Codec<D>, blocks: seq<Bytes>, b: Bytes)
    ensures DecoderAfter(c, blocks + [b]) == c.decode(DecoderAfter(c, blocks), b).0
    ensures DecodedAt(c, blocks + [b], |blocks|) == c.decode(DecoderAfter(c, blocks), b).1
    ensures forall k :: 0 <= k < |blocks| ==> DecodedAt(c, blocks + [b], k) == DecodedAt(c, blocks, k)
    ensures AllDecode(c, blocks + [b]) <==>
            AllDecode(c, blocks) && c.decode(DecoderAfter(c, blocks), b).1.Fields?
  {
    assert (blocks + [b])[..|blocks|] == blocks;
    forall k | 0 <= k < |blocks|
      ensures DecodedAt(c, blocks + [b], k) == DecodedAt(c, blocks, k)
    {
      assert (blocks + [b])[..k] == blocks[..k];
    }
    if AllDecode(c, blocks + [b]) {
      forall k | 0 <= k < |blocks| ensures DecodedAt(c, blocks, k).Fields? {
        assert DecodedAt(c, blocks + [b], k).Fields?;
      }
    }
  }
}
