/**
 * Magic-byte sniffing and dispatch of src/compression.rs. Detectors are tried
 * in a fixed order and the first one that claims the input decompresses it;
 * input nobody claims passes through unchanged. The flate2 decoders are left
 * abstract.
 */
module Compression {
  import opened Wrappers
  import opened Utf8

  /** `std::io::Error`, as an opaque description. */
  datatype IoError = IoError(description: string)

  /** flate2's gzip (RFC 1952) and zlib (RFC 1950) decoders, read to the end. */
  datatype Flate2 = Flate2(
    gzDecode: seq<Byte> -> Result<seq<Byte>, IoError>,
    zlibDecode: seq<Byte> -> Result<seq<Byte>, IoError>)

  /** `GzipDecompressor` and `ZlibDecompressor`. */
  datatype Decompressor = Gzip | Zlib {

    /**
     * `can_handle`: more than two bytes, starting with the gzip member header
     * ID1 = 0x1f, ID2 = 0x8b (section 2.3.1 of RFC 1952), or with the zlib
     * CMF byte 0x78 followed by one of the FLG bytes 0x9c, 0xda, 0x01
     * (section 2.2 of RFC 1950).
     */
    predicate CanHandle(data: seq<Byte>) {
      match this
      case Gzip => |data| > 2 && data[0] == 0x1f && data[1] == 0x8b
      case Zlib => |data| > 2 && data[0] == 0x78 && (data[1] == 0x9c || data[1] == 0xda || data[1] == 0x01)
    }

    /** `decompress`: the decoder's whole output, or its error. */
    function Decompress(flate: Flate2, data: seq<Byte>): Result<seq<Byte>, IoError> {
      match this
      case Gzip => flate.gzDecode(data)
      case Zlib => flate.zlibDecode(data)
    }
  }

  /** The result of trying the detectors `ds` in order on `data`. */
  function FirstMatch(ds: seq<Decompressor>, flate: Flate2, data: seq<Byte>): Result<seq<Byte>, IoError> {
    if ds == [] then Success(data)
    else if ds[0].CanHandle(data) then ds[0].Decompress(flate, data)
    else FirstMatch(ds[1..], flate, data)
  }

  /** The first detector that claims the input decides the result; later ones are never consulted. */
  lemma {:induction false} FirstMatchPicksFirst(ds: seq<Decompressor>, flate: Flate2, data: seq<Byte>, i: nat)
    requires i < |ds| && ds[i].CanHandle(data)
    requires forall j :: 0 <= j < i ==> !ds[j].CanHandle(data)
    ensures FirstMatch(ds, flate, data) == ds[i].Decompress(flate, data)
    decreases i
  {
    if i > 0 {
      assert !ds[0].CanHandle(data);
      FirstMatchPicksFirst(ds[1..], flate, data, i - 1);
    }
  }

  /** When no detector claims the input, it comes back byte for byte. */
  lemma {:induction false} FirstMatchPassesThrough(ds: seq<Decompressor>, flate: Flate2, data: seq<Byte>)
    requires forall j :: 0 <= j < |ds| ==> !ds[j].CanHandle(data)
    ensures FirstMatch(ds, flate, data) == Success(data)
    decreases |ds|
  {
    if ds != [] {
      assert !ds[0].CanHandle(data);
      FirstMatchPassesThrough(ds[1..], flate, data);
    }
  }

  /** `CompressionManager`: the ordered detector list, with the decoders they call. */
  datatype CompressionManager = CompressionManager(decompressors: seq<Decompressor>, flate: Flate2) {

    /** `CompressionManager::new`: gzip first, then zlib. */
    static function New(flate: Flate2): CompressionManager {
      CompressionManager([Gzip, Zlib], flate)
    }

    /** `CompressionManager::decompress`: the first claiming detector's result, or the input itself. */
    method Decompress(data: seq<Byte>) returns (r: Result<seq<Byte>, IoError>)
      ensures r == FirstMatch(decompressors, flate, data)
    {
      for i := 0 to |decompressors|
        invariant forall j :: 0 <= j < i ==> !decompressors[j].CanHandle(data)
      {
        if decompressors[i].CanHandle(data) {
          r := decompressors[i].Decompress(flate, data);
          FirstMatchPicksFirst(decompressors, flate, data, i);
          return;
        }
      }
      r := Success(data);
      FirstMatchPassesThrough(decompressors, flate, data);
    }
  }

  /** No input is claimed by both detectors. */
  lemma DetectorsExclusive(data: seq<Byte>)
    ensures !(Gzip.CanHandle(data) && Zlib.CanHandle(data))
  {
  }

  /** Two bytes or fewer are never taken for compressed data, not even a bare gzip magic. */
  lemma ShortInputNeverDetected(data: seq<Byte>)
    requires |data| <= 2
    ensures !Gzip.CanHandle(data) && !Zlib.CanHandle(data)
  {
  }

  /** Gzip-looking input goes to the gzip decoder, and its error is returned with no fallback. */
  lemma ManagerUsesGzip(flate: Flate2, data: seq<Byte>)
    requires Gzip.CanHandle(data)
    ensures FirstMatch(CompressionManager.New(flate).decompressors, flate, data) == flate.gzDecode(data)
  {
  }

  /** Zlib-looking input goes to the zlib decoder, and its error is returned with no fallback. */
  lemma ManagerUsesZlib(flate: Flate2, data: seq<Byte>)
    requires Zlib.CanHandle(data)
    ensures FirstMatch(CompressionManager.New(flate).decompressors, flate, data) == flate.zlibDecode(data)
  {
    DetectorsExclusive(data);
  }

  /** Anything else, short input included, is returned unchanged. */
  lemma ManagerPassesThrough(flate: Flate2, data: seq<Byte>)
    requires !Gzip.CanHandle(data) && !Zlib.CanHandle(data)
    ensures FirstMatch(CompressionManager.New(flate).decompressors, flate, data) == Success(data)
  {
    FirstMatchPassesThrough(CompressionManager.New(flate).decompressors, flate, data);
  }

  /**
   * A zlib stream header as section 2.2 of RFC 1950 defines it: compression
   * method 8 (deflate) in the low bits of CMF, a window of at most 32K
   * (CINFO <= 7), and CMF * 256 + FLG a multiple of 31.
   */
  predicate Rfc1950Header(cmf: Byte, flg: Byte) {
    cmf & 0x0F == 8 && cmf >> 4 <= 7 && (cmf as int * 256 + flg as int) % 31 == 0
  }

  /** Every header the zlib detector claims is a valid RFC 1950 header without a preset dictionary. */
  lemma ZlibDetectionSound(data: seq<Byte>)
    requires Zlib.CanHandle(data)
    ensures Rfc1950Header(data[0], data[1]) && data[1] & 0x20 == 0
  {
    assert data[0] == 0x78;
    assert data[1] == 0x9c || data[1] == 0xda || data[1] == 0x01;
  }

  /**
   * The detector is not complete: `78 5E`, the header zlib writes at
   * compression levels 2 to 5, is valid but not claimed, so such a datagram
   * passes through undecompressed.
   */
  lemma ZlibLevelTwoToFiveNotDetected(flate: Flate2, rest: seq<Byte>)
    ensures Rfc1950Header(0x78, 0x5e)
    ensures !Zlib.CanHandle([0x78, 0x5e] + rest)
    ensures FirstMatch(CompressionManager.New(flate).decompressors, flate, [0x78, 0x5e] + rest) ==
      Success([0x78, 0x5e] + rest)
  {
    ManagerPassesThrough(flate, [0x78, 0x5e] + rest);
  }

  /** A JSON object, whose text starts with `{`, is never mistaken for compressed data. */
  lemma JsonTextPassesThrough(flate: Flate2, data: seq<Byte>)
    requires |data| > 0 && data[0] == 0x7b
    ensures FirstMatch(CompressionManager.New(flate).decompressors, flate, data) == Success(data)
  {
    ManagerPassesThrough(flate, data);
  }
}
