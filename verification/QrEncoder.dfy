/**
  qrMatrix of web/qr.js from the bytes of the text to the finished symbol.
 */
module QrEncoder {
  import opened Bits
  import opened Wrappers
  import opened QrCodewords
  import opened QrPatterns
  import opened QrPenalty
  import opened QrSymbol
  import opened QrReader
  import opened QrCapacity
  import RS = ReedSolomon

  /** The whole encoder: None exactly for more than 412 bytes, else a symbol of least penalty that reads back. */
  method QrMatrix(bytes: seq<byte>) returns (version: nat, result: Option<array2<bool>>)
    ensures result.None? <==> |bytes| > 412
    ensures result.Some? ==>
      && 1 <= version <= MAX_VERSION && result.value.Length0 == result.value.Length1 == Size(version)
      && |bytes| <= ByteCapacity(version) && (forall v :: 1 <= v < version ==> ByteCapacity(v) < |bytes|)
    ensures result.Some? ==> ReadGrid(Snapshot(result.value)) == Some(bytes)
    ensures result.Some? ==> exists data: Grid, m ::
      IsGrid(data, Size(version)) && Within(FreeCells(version), Size(version))
      && Carries(version, data, Codewords(DataBlock(bytes, version), version)) && Best(version, data, m, 8) && Snapshot(result.value) == Candidate(version, data, m)
  {
    hide IsFunction, PatternDark, Candidate, Codewords, DataBlock, Penalty, FreeFrom, Info, DataCodewords, RS.Encoder.Valid, ReadGrid, Best;
    version := ChooseVersion(|bytes|);
    MaximumCapacity();
    if version == 0 {
      return 0, None;
    }
    var rs := new RS.Encoder();
    var block := EncodeData(bytes, version);
    var codewords := Interleave(rs, block[..], version);
    var cv := new Canvas(Size(version));
    cv.DrawFunctionPatterns(version);
    ghost var before := Snapshot(cv.modules);
    PlaceData(cv, version, codewords[..]);
    ghost var data := Snapshot(cv.modules);
    PlacedKeepsPatterns(cv, version, codewords[..], before, data);
    var mask := ChooseMask(cv, version, data);
    EnoughModules(version);
    FreeCellsWithin(version);
    GridReads(version, data, mask, bytes);
    result := Some(cv.modules);
  }
}
