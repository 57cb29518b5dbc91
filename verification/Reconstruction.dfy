/** The envelope rebuilt around a blob: Python's check_blob_signature and a Go verifier rebuild the
    same octets and give the same verdict on them. */
module Reconstruction {
  import opened Bytes
  import opened Structures
  import opened Signed
  import Checker

  /** Both sides rebuild the same octets from a blob and the verifier's own digest. */
  lemma SameEnvelope(b: Blob, digest: bytes)
    ensures Checker.Envelope(b.purpose, digest, b.payload) == EnvelopeBytes(Reconstruct(b, digest))
  {
    hide LayoutOf;
    EnvelopeWireIsStructValue(Reconstruct(b, digest));
    assert Checker.EnvelopeObject(b.purpose, digest, b.payload) == EnvelopeObject(Reconstruct(b, digest));
  }

  /** The verifier's half of the rule in Go: MarshalSignedV1 of the rebuilt envelope, and the
      signature over those octets. */
  predicate GoVerifies(verify: Checker.Verify, key: bytes, b: Blob, digest: bytes) {
    var s := Reconstruct(b, digest);
    CheckSigned(s) == None && verify(key, EnvelopeBytes(s), b.value)
  }

  /** With the inputs of a vector supplied and a digest of the right width, check_blob_signature
      accepts exactly when a Go verifier with this digest does and one with the flipped digest does
      not; the two look at different octets. A digest of another width no Go verifier takes. */
  lemma SignaturesAgree(vec: Checker.Vector, b: Blob, verify: Checker.Verify)
    requires CheckBlob(b) == None
    requires vec.genesisDigest != [] && vec.pubKey != []
    ensures
      var own, foreign := vec.genesisDigest, Checker.FlipFirst(vec.genesisDigest);
      if |own| == 32 then
        && (Checker.SignatureHolds(vec, BlobObject(b), verify)
            <==>
            && |vec.pubKey| == 32
            && GoVerifies(verify, vec.pubKey, b, own)
            && !GoVerifies(verify, vec.pubKey, b, foreign))
        && (|b.payload| < 0x1_0000_0000 ==>
              EnvelopeBytes(Reconstruct(b, own)) != EnvelopeBytes(Reconstruct(b, foreign)))
      else
        !GoVerifies(verify, vec.pubKey, b, own)
  {
    hide EnvelopeBytes, EnvelopeSized, Checker.Envelope;
    var own, foreign := vec.genesisDigest, Checker.FlipFirst(vec.genesisDigest);
    SameEnvelope(b, own);
    SameEnvelope(b, foreign);
    BlobReads(b);
    if |own| == GENESIS_DIGEST_LEN && |b.payload| < 0x1_0000_0000 {
      ReconstructIsSized(b, own);
      ReconstructIsSized(b, foreign);
      ReconstructedEnvelope(b, own, foreign);
    }
  }
}
