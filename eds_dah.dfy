/** The data availability header as the store rebuilds it from the roots of
    a CARv1 file's header: the first half of the roots are the row roots,
    the rest the column roots. */
module EdsDah {
  import opened Common

  /** A CID: its codec and the digest of its multihash, which for the
      namespaced SHA-256 CIDs of the store is the namespaced root itself. */
  datatype Cid = Cid(codec: nat, digest: seq<byte>)

  /** The part of `carv1.CarHeader` the store reads. */
  datatype CarHeader = CarHeader(roots: seq<Cid>, version: nat)

  datatype DataAvailabilityHeader = DataAvailabilityHeader(rowRoots: seq<seq<byte>>, columnRoots: seq<seq<byte>>)

  /** `ipld.NamespacedSha256FromCID`: the digest carried by the CID. */
  function NamespacedSha256FromCid(c: Cid): (d: seq<byte>)
  {
    c.digest
  }

  /** Every root of the header, converted, in header order. */
  function RootBytes(roots: seq<Cid>): (r: seq<seq<byte>>)
  {
    seq(|roots|, i requires 0 <= i < |roots| => NamespacedSha256FromCid(roots[i]))
  }

  /** The header `dahFromCARHeader` builds. */
  function DahOf(h: CarHeader): (d: DataAvailabilityHeader)
    ensures |d.rowRoots| + |d.columnRoots| == |h.roots|
    ensures |d.columnRoots| - |d.rowRoots| == |h.roots| % 2
  {
    var all := RootBytes(h.roots);
    DataAvailabilityHeader(all[..|all| / 2], all[|all| / 2..])
  }

  /** On n roots: floor(n/2) row roots, n - floor(n/2) column roots, and rows
      followed by columns give back every converted root in order. */
  lemma DahOfSplit(h: CarHeader)
    ensures |DahOf(h).rowRoots| == |h.roots| / 2
    ensures |DahOf(h).columnRoots| == |h.roots| - |h.roots| / 2
    ensures DahOf(h).rowRoots + DahOf(h).columnRoots == RootBytes(h.roots)
    ensures forall i :: 0 <= i < |h.roots| / 2 ==>
      DahOf(h).rowRoots[i] == h.roots[i].digest
    ensures forall j :: 0 <= j < |h.roots| - |h.roots| / 2 ==>
      DahOf(h).columnRoots[j] == h.roots[|h.roots| / 2 + j].digest
  {
    var all := RootBytes(h.roots);
    assert all[..|all| / 2] + all[|all| / 2..] == all;
  }

  /** `dahFromCARHeader`: convert each root, appending, then slice at half. */
  method DahFromCarHeader(h: CarHeader) returns (d: DataAvailabilityHeader)
    ensures d == DahOf(h)
    ensures d.rowRoots + d.columnRoots == RootBytes(h.roots)
  {
    var rootCount := |h.roots|;
    var rootBytes: seq<seq<byte>> := [];
    var i := 0;
    while i < rootCount
      invariant 0 <= i <= rootCount
      invariant rootBytes == RootBytes(h.roots[..i])
    {
      rootBytes := rootBytes + [NamespacedSha256FromCid(h.roots[i])];
      i := i + 1;
    }
    assert h.roots[..i] == h.roots;
    d := DataAvailabilityHeader(rootBytes[..rootCount / 2], rootBytes[rootCount / 2..]);
    DahOfSplit(h);
  }
}
