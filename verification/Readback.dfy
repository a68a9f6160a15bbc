/**
 Digests over images, and the readback decision of a flash job.

 SHA-256 is a parameter `h`. It maps every byte string to 32 bytes, so it cannot be
 injective; the results below only ask that it has no collision among the finitely
 many byte strings that the digests in question are computed over.
 */
module Readback {
  import opened Bytes
  import opened Extents

  type Digest = d: seq<Byte> | |d| == 32 witness seq(32, _ => 0)
  type Hash = seq<Byte> -> Digest

  ghost predicate CollisionFree(h: Hash, inputs: set<seq<Byte>>)
  {
    forall x, y :: x in inputs && y in inputs && h(x) == h(y) ==> x == y
  }

  /** A machine-sized byte string: its length fits the u64 length field. */
  predicate Addressable(b: seq<Byte>) { |b| < Pow256(8) }

  function Slice(b: seq<Byte>, e: Extent): (s: seq<Byte>)
    requires e.End() <= |b|
  {
    b[e.offset..e.End()]
  }

  /** The 48 bytes hashed for one extent: offset, length and content digest. */
  function ExtentEntry(h: Hash, b: seq<Byte>, e: Extent): (s: seq<Byte>)
    requires e.End() <= |b|
    ensures |s| == 48
  {
    LittleEndian(e.offset, 8) + LittleEndian(e.len, 8) + h(Slice(b, e))
  }

  function Entries(h: Hash, b: seq<Byte>, es: seq<Extent>, n: nat): (s: seq<Byte>)
    requires n <= |es| && forall i :: 0 <= i < |es| ==> es[i].End() <= |b|
    ensures |s| == 48 * n
  {
    if n == 0 then [] else Entries(h, b, es, n - 1) + ExtentEntry(h, b, es[n - 1])
  }

  /** The extent count as it is encoded: a count beyond u32 is written as zero. */
  function CountField(n: nat): (r: nat)
  {
    if n < Pow256(4) then n else 0
  }

  function ManifestHeader(b: seq<Byte>, es: seq<Extent>): (s: seq<Byte>)
    ensures |s| == 12
  {
    LittleEndian(|b|, 8) + LittleEndian(CountField(|es|), 4)
  }

  /** Everything fed to the outer hash of the extent manifest. */
  function ManifestBytes(h: Hash, b: seq<Byte>): (s: seq<Byte>)
  {
    var es := Populated(b);
    ManifestHeader(b, es) + Entries(h, b, es, |es|)
  }

  function ManifestDigest(h: Hash, b: seq<Byte>): (d: Digest) { h(ManifestBytes(h, b)) }

  /** The byte strings hashed while the manifest digest of `b` is computed. */
  ghost function ManifestInputs(h: Hash, b: seq<Byte>): (s: set<seq<Byte>>)
  {
    var es := Populated(b);
    {ManifestBytes(h, b)} + (set i | 0 <= i < |es| :: Slice(b, es[i]))
  }

  /** The streaming computation of the manifest digest. */
  method ExtentManifestDigest(h: Hash, b: seq<Byte>) returns (d: Digest)
    ensures d == ManifestDigest(h, b)
  {
    var extents := PopulatedExtents(b);
    var hasher := LittleEndian(|b|, 8);
    hasher := hasher + LittleEndian(CountField(|extents|), 4);
    for i := 0 to |extents|
      invariant hasher == ManifestHeader(b, extents) + Entries(h, b, extents, i)
    {
      var e := extents[i];
      hasher := hasher + LittleEndian(e.offset, 8);
      hasher := hasher + LittleEndian(e.len, 8);
      hasher := hasher + h(b[e.offset..e.End()]);
      EntryAppended(h, b, extents, i);
    }
    d := h(hasher);
  }

  lemma EntryAppended(h: Hash, b: seq<Byte>, es: seq<Extent>, i: nat)
    requires i < |es| && forall i :: 0 <= i < |es| ==> es[i].End() <= |b|
    ensures var e := es[i];
            ManifestHeader(b, es) + Entries(h, b, es, i) + LittleEndian(e.offset, 8) + LittleEndian(e.len, 8)
              + h(b[e.offset..e.End()])
            == ManifestHeader(b, es) + Entries(h, b, es, i + 1)
  {
  }

  /** The entry of extent `i` can be read back from the manifest body. */
  lemma {:induction false} EntryAt(h: Hash, b: seq<Byte>, es: seq<Extent>, n: nat, i: nat)
    requires i < n <= |es| && forall i :: 0 <= i < |es| ==> es[i].End() <= |b|
    ensures Entries(h, b, es, n)[48 * i..48 * i + 48] == ExtentEntry(h, b, es[i])
  {
    var s := Entries(h, b, es, n);
    if i == n - 1 {
      assert s[48 * i..] == ExtentEntry(h, b, es[i]);
      assert s[48 * i..48 * i + 48] == s[48 * i..];
    } else {
      EntryAt(h, b, es, n - 1, i);
      assert s[48 * i..48 * i + 48] == Entries(h, b, es, n - 1)[48 * i..48 * i + 48];
    }
  }

  lemma EntryFields(h: Hash, b: seq<Byte>, e: Extent)
    requires e.End() <= |b|
    ensures var s := ExtentEntry(h, b, e);
            s[..8] == LittleEndian(e.offset, 8) && s[8..16] == LittleEndian(e.len, 8) && s[16..] == h(Slice(b, e))
  {
  }

  /** Equal entries describe the same extent with the same content digest. */
  lemma EntryInjective(h: Hash, a: seq<Byte>, d: Extent, b: seq<Byte>, e: Extent)
    requires Addressable(a) && Addressable(b)
    requires d.End() <= |a| && e.End() <= |b|
    requires ExtentEntry(h, a, d) == ExtentEntry(h, b, e)
    ensures d == e && h(Slice(a, d)) == h(Slice(b, e))
  {
    EntryFields(h, a, d);
    EntryFields(h, b, e);
    LittleEndianInjective(d.offset, e.offset, 8);
    LittleEndianInjective(d.len, e.len, 8);
  }

  /** Equal manifests list the same extents over images of the same length. */
  lemma ManifestBytesInjective(h: Hash, a: seq<Byte>, b: seq<Byte>)
    requires Addressable(a) && Addressable(b)
    requires ManifestBytes(h, a) == ManifestBytes(h, b)
    ensures |a| == |b|
    ensures Populated(a) == Populated(b)
    ensures forall i :: 0 <= i < |Populated(a)| ==> h(Slice(a, Populated(a)[i])) == h(Slice(b, Populated(b)[i]))
  {
    var ds, es := Populated(a), Populated(b);
    var s := ManifestBytes(h, a);
    assert s[..8] == LittleEndian(|a|, 8) && s[..8] == LittleEndian(|b|, 8);
    LittleEndianInjective(|a|, |b|, 8);
    assert s[12..] == Entries(h, a, ds, |ds|) && s[12..] == Entries(h, b, es, |es|);
    assert |ds| == |es|;
    forall i | 0 <= i < |ds| ensures ds[i] == es[i] && h(Slice(a, ds[i])) == h(Slice(b, es[i])) {
      EntryAt(h, a, ds, |ds|, i);
      EntryAt(h, b, es, |es|, i);
      EntryInjective(h, a, ds[i], b, es[i]);
    }
  }

  /** Images with the same populated extents and the same bytes inside them are equal. */
  lemma ExtentsDetermineImage(a: seq<Byte>, b: seq<Byte>)
    requires |a| == |b| && Populated(a) == Populated(b)
    requires forall i :: 0 <= i < |Populated(a)| ==> Slice(a, Populated(a)[i]) == Slice(b, Populated(a)[i])
    ensures a == b
  {
    var es := Populated(a);
    PopulatedCanonical(a);
    PopulatedCanonical(b);
    forall k | 0 <= k < |a| ensures a[k] == b[k] {
      if Covered(es, k) {
        var i :| 0 <= i < |es| && es[i].Holds(k);
        assert Slice(a, es[i])[k - es[i].offset] == Slice(b, es[i])[k - es[i].offset];
      }
    }
  }

  /** The manifest digest covers the whole image, although only populated extents are hashed. */
  lemma ManifestDigestDetermines(h: Hash, a: seq<Byte>, b: seq<Byte>)
    requires Addressable(a) && Addressable(b)
    requires CollisionFree(h, ManifestInputs(h, a) + ManifestInputs(h, b))
    requires ManifestDigest(h, a) == ManifestDigest(h, b)
    ensures a == b
  {
    var inputs := ManifestInputs(h, a) + ManifestInputs(h, b);
    assert ManifestBytes(h, a) in inputs && ManifestBytes(h, b) in inputs;
    ManifestBytesInjective(h, a, b);
    forall i | 0 <= i < |Populated(a)| ensures Slice(a, Populated(a)[i]) == Slice(b, Populated(b)[i]) {
      assert Slice(a, Populated(a)[i]) in inputs && Slice(b, Populated(b)[i]) in inputs;
    }
    ExtentsDetermineImage(a, b);
  }

  datatype Policy = Full | Sample | Other

  /** The fields of an authorization token that the write command decides on. */
  datatype Token = Token(
    stableId: string,
    targetSize: nat,
    targetInitial: Digest,
    imageSize: nat,
    imageDigest: Digest,
    sampleManifest: seq<Byte>,
    policy: Policy,
    sectorSize: nat)

  /** The token is the one authorize-file issues for `image` on a blank target of its size. */
  ghost predicate IssuedFor(h: Hash, t: Token, image: seq<Byte>)
  {
    && t.targetSize == t.imageSize == |image|
    && t.targetInitial == h(Blank(|image|))
    && t.imageDigest == h(image)
    && !t.policy.Other?
    && t.sampleManifest == if t.policy.Sample? then ManifestDigest(h, image) else []
  }

  function Blank(n: nat): (b: seq<Byte>) { seq(n, _ => 0) }

  /** The PASS decision on what was read back from the target. */
  predicate ReadbackPasses(h: Hash, readback: seq<Byte>, t: Token)
  {
    match t.policy
    case Full => h(readback) == t.imageDigest
    case Sample => ManifestDigest(h, readback) == t.sampleManifest
    case Other => false
  }

  /** Everything hashed when `a` and `b` are compared under either policy. */
  ghost function ReadbackInputs(h: Hash, a: seq<Byte>, b: seq<Byte>): (s: set<seq<Byte>>)
  {
    {a, b} + ManifestInputs(h, a) + ManifestInputs(h, b)
  }

  /** Under either policy a readback passes exactly when it is the authorized image. */
  lemma ReadbackExact(h: Hash, t: Token, image: seq<Byte>, readback: seq<Byte>)
    requires Addressable(image) && Addressable(readback)
    requires IssuedFor(h, t, image)
    requires CollisionFree(h, ReadbackInputs(h, image, readback))
    ensures ReadbackPasses(h, readback, t) <==> readback == image
  {
    if t.policy.Sample? && ReadbackPasses(h, readback, t) {
      ManifestDigestDetermines(h, image, readback);
    }
  }

  /** The sample policy accepts what the full policy accepts, no more and no less. */
  lemma SampleLosesNothing(h: Hash, full: Token, sample: Token, image: seq<Byte>, readback: seq<Byte>)
    requires Addressable(image) && Addressable(readback)
    requires IssuedFor(h, full, image) && full.policy.Full?
    requires IssuedFor(h, sample, image) && sample.policy.Sample?
    requires CollisionFree(h, ReadbackInputs(h, image, readback))
    ensures ReadbackPasses(h, readback, full) <==> ReadbackPasses(h, readback, sample)
  {
    ReadbackExact(h, full, image, readback);
    ReadbackExact(h, sample, image, readback);
  }
}
