/** Repairing a tag that a later TCP segment holds: tc_egress_patch with a pending tag delta. Sequence numbers are
    32-bit words, compared as numbers. */
module DeferredTag {
  import opened GF128Bytes
  import opened Arithmetic
  import opened RecordPatch

  // A tc_tag_pending entry: what to XOR into the 16 bytes from sequence number at on.
  datatype Pending = Pending(delta: seq<bv8>, at: nat)

  function SeqOf(isn: nat, at: nat): (s: nat)
    ensures s < TWO32
  {
    (isn + at) % TWO32
  }

  // The comparison that decides whether the segment of len bytes from pktSeq on holds the tag.
  predicate Recognised(pktSeq: nat, len: nat, tagSeq: nat) {
    pktSeq <= tagSeq && (tagSeq + TAG_LEN) % TWO32 <= (pktSeq + len) % TWO32
  }

  // A later segment: its tag bytes, if it is recognised to hold them, are repaired, and the entry is deleted.
  method TcDeferredTag(skb: array<bv8>, payloadOff: nat, payloadLen: nat, pktSeq: nat, tag: Pending) returns (deleted: bool)
    requires |tag.delta| == TAG_LEN && tag.at < TWO32 && pktSeq < TWO32
    modifies skb
    ensures deleted <==> Recognised(pktSeq, payloadLen, tag.at)
    ensures var at := payloadOff + tag.at - pktSeq;
            forall k :: 0 <= k < skb.Length ==>
              skb[k] == if deleted && at + TAG_LEN <= skb.Length && at <= k < at + TAG_LEN
                        then Xor(old(skb[k]), tag.delta[k - at]) else old(skb[k])
  {
    var pktEnd := (pktSeq + payloadLen) % TWO32;
    deleted := pktSeq <= tag.at && (tag.at + TAG_LEN) % TWO32 <= pktEnd;
    if deleted {
      var at := payloadOff + tag.at - pktSeq;
      if at + TAG_LEN <= skb.Length {
        XorAt(skb, at, TAG_LEN, tag.delta);
      }
    }
  }

  // A segment holds stream bytes s..s+len-1, the tag is at stream byte t. While the sequence numbers of the two do not
  // wrap, the tag is recognised exactly in a segment that holds all of it: one split over two segments never is.
  lemma RecognisedExactly(isn: nat, s: nat, len: nat, t: nat)
    requires SeqOf(isn, s) + len < TWO32 && SeqOf(isn, t) + TAG_LEN < TWO32
    requires (isn + s) / TWO32 == (isn + t) / TWO32
    ensures Recognised(SeqOf(isn, s), len, SeqOf(isn, t)) <==> s <= t && t + TAG_LEN <= s + len
  {
  }

  // In a segment whose sequence numbers wrap, a tag it holds is recognised if and only if its own wrap.
  lemma WrappedExactly(isn: nat, s: nat, len: nat, t: nat)
    requires len <= 0xffff && s <= t && t + TAG_LEN <= s + len && SeqOf(isn, s) + len >= TWO32
    ensures Recognised(SeqOf(isn, s), len, SeqOf(isn, t))
            <==> SeqOf(isn, s) + (t - s) < TWO32 <= SeqOf(isn, s) + (t - s) + TAG_LEN
  {
    assert SeqOf(isn, t) == (SeqOf(isn, s) + (t - s)) % TWO32;
  }
}
