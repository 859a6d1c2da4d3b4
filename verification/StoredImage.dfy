/** The persisted image of a configuration page, src/config.rs:
  magic "STCF", versions, generation, length, payload CRC, image CRC over all of it, payload. */
module StoredImage {
  import opened Bytes
  import opened Crc

  const CONFIG_IMAGE_MAGIC: seq<byte> := [0x53, 0x54, 0x43, 0x46]
  const SCHEMA_VERSION: u16 := 1
  const CONFIG_FORMAT_VERSION: u8 := 1
  const STORED_PAGE_PREFIX_LEN := 18
  const STORED_PAGE_HEADER_LEN := 22

  datatype ConfigPageHeader = ConfigPageHeader(
    pageId: u8,
    schemaVersion: u16,
    formatVersion: u8,
    generation: bv32,
    payloadLength: u16,
    payloadCrc: bv32,
    imageCrc: bv32)

  datatype StoredPageImage = StoredPageImage(header: ConfigPageHeader, payload: seq<byte>)

  datatype ConfigImageError =
    | MalformedImage
    | InvalidMagic
    | UnsupportedFormat(version: u8)
    | ImageCrcMismatch
    | PayloadCrcMismatch

  function Prefix(h: ConfigPageHeader): (s: seq<byte>)
    ensures |s| == STORED_PAGE_PREFIX_LEN
  {
    CONFIG_IMAGE_MAGIC
    + [ByteOf(h.formatVersion), ByteOf(h.pageId)]
    + U16Bytes(h.schemaVersion)
    + Reg32Bytes(h.generation)
    + U16Bytes(h.payloadLength)
    + Reg32Bytes(h.payloadCrc)
  }

  /** `calculate_image_crc`: the CRC over the prefix and the payload. */
  function ImageCrc(h: ConfigPageHeader, payload: seq<byte>): bv32 {
    Crc32(Prefix(h) + payload)
  }

  /** `build_page_header_with_versions`. The length is the low 16 bits of the payload's. */
  function BuildHeader(pageId: u8, generation: bv32, schemaVersion: u16, formatVersion: u8, payload: seq<byte>)
    : ConfigPageHeader
  {
    var h := ConfigPageHeader(
               pageId, schemaVersion, formatVersion, generation, |payload| % 0x1_0000, Crc32(payload), 0);
    h.(imageCrc := ImageCrc(h, payload))
  }

  /** `encode_stored_page_image_with_versions`, which cuts a payload that does not fit the length field. */
  function Encode(pageId: u8, generation: bv32, schemaVersion: u16, formatVersion: u8, payload: seq<byte>): seq<byte> {
    var cut := if |payload| > U16_MAX then payload[..U16_MAX] else payload;
    Assemble(StoredPageImage(BuildHeader(pageId, generation, schemaVersion, formatVersion, cut), cut))
  }

  function Assemble(image: StoredPageImage): (s: seq<byte>)
    ensures |s| == STORED_PAGE_HEADER_LEN + |image.payload|
  {
    Prefix(image.header) + Reg32Bytes(image.header.imageCrc) + image.payload
  }

  function HeaderOf(raw: seq<byte>): ConfigPageHeader
    requires |raw| >= STORED_PAGE_HEADER_LEN
  {
    ConfigPageHeader(
      Val(raw[5]),
      U16Val(raw[6], raw[7]),
      Val(raw[4]),
      Reg32Val(raw[8], raw[9], raw[10], raw[11]),
      U16Val(raw[12], raw[13]),
      Reg32Val(raw[14], raw[15], raw[16], raw[17]),
      Reg32Val(raw[18], raw[19], raw[20], raw[21]))
  }

  /** `decode_stored_page_image`. */
  function Decode(raw: seq<byte>): Result<StoredPageImage, ConfigImageError> {
    if |raw| < STORED_PAGE_HEADER_LEN then Err(MalformedImage)
    else if raw[..4] != CONFIG_IMAGE_MAGIC then Err(InvalidMagic)
    else
      var h := HeaderOf(raw);
      var payload := raw[STORED_PAGE_HEADER_LEN..];
      if h.formatVersion > CONFIG_FORMAT_VERSION then Err(UnsupportedFormat(h.formatVersion))
      else if |raw| != STORED_PAGE_HEADER_LEN + h.payloadLength then Err(MalformedImage)
      else if Crc32(payload) != h.payloadCrc then Err(PayloadCrcMismatch)
      else if ImageCrc(h, payload) != h.imageCrc then Err(ImageCrcMismatch)
      else Ok(StoredPageImage(h, payload))
  }

  // ---- the two directions ----

  lemma PrefixLayout(h: ConfigPageHeader)
    ensures var s := Prefix(h);
            && s[..4] == CONFIG_IMAGE_MAGIC
            && s[4] == ByteOf(h.formatVersion)
            && s[5] == ByteOf(h.pageId)
            && U16Bytes(h.schemaVersion) == [s[6], s[7]]
            && Reg32Bytes(h.generation) == [s[8], s[9], s[10], s[11]]
            && U16Bytes(h.payloadLength) == [s[12], s[13]]
            && Reg32Bytes(h.payloadCrc) == [s[14], s[15], s[16], s[17]]
  {
    hide U16Bytes, Reg32Bytes, ByteOf;
  }

  lemma HeaderOfAssembled(image: StoredPageImage)
    ensures HeaderOf(Assemble(image)) == image.header
    ensures Assemble(image)[..4] == CONFIG_IMAGE_MAGIC
    ensures Assemble(image)[STORED_PAGE_HEADER_LEN..] == image.payload
  {
    hide U16Bytes, Reg32Bytes, ByteOf, U16Val, Reg32Val, Val, Prefix;
    var h, s := image.header, Assemble(image);
    PrefixLayout(h);
    assert s[..18] == Prefix(h);
    assert forall k :: 0 <= k < 18 ==> s[k] == Prefix(h)[k];
    assert s[..4] == Prefix(h)[..4];
    assert forall k :: 0 <= k < 4 ==> s[18 + k] == Reg32Bytes(h.imageCrc)[k];
    ValOfByte(h.formatVersion);
    ValOfByte(h.pageId);
    U16RoundTrip(h.schemaVersion);
    U16RoundTrip(h.payloadLength);
    Reg32RoundTrip(h.generation);
    Reg32RoundTrip(h.payloadCrc);
    Reg32RoundTrip(h.imageCrc);
  }

  lemma ImageCrcIgnoresItself(h: ConfigPageHeader, payload: seq<byte>, c: bv32)
    ensures ImageCrc(h.(imageCrc := c), payload) == ImageCrc(h, payload)
  {
    hide Crc32;
    assert Prefix(h.(imageCrc := c)) == Prefix(h);
  }

  /** An encoded page decodes to the very header and payload it was encoded from. */
  lemma DecodeEncoded(pageId: u8, generation: bv32, schemaVersion: u16, formatVersion: u8, payload: seq<byte>)
    requires |payload| <= U16_MAX && formatVersion <= CONFIG_FORMAT_VERSION
    ensures Decode(Encode(pageId, generation, schemaVersion, formatVersion, payload))
         == Ok(StoredPageImage(BuildHeader(pageId, generation, schemaVersion, formatVersion, payload), payload))
  {
    hide Crc32, ImageCrc, Assemble, HeaderOf;
    var h := BuildHeader(pageId, generation, schemaVersion, formatVersion, payload);
    var image := StoredPageImage(h, payload);
    HeaderOfAssembled(image);
    ImageCrcIgnoresItself(h, payload, 0);
  }

  /** Both bounds are exact: a longer payload or a newer format is not recovered. */
  lemma RecoveredExactly(pageId: u8, generation: bv32, schemaVersion: u16, formatVersion: u8, payload: seq<byte>)
    ensures Decode(Encode(pageId, generation, schemaVersion, formatVersion, payload))
            == Ok(StoredPageImage(BuildHeader(pageId, generation, schemaVersion, formatVersion, payload), payload))
       <==> |payload| <= U16_MAX && formatVersion <= CONFIG_FORMAT_VERSION
    ensures (&& var r := Decode(Encode(pageId, generation, schemaVersion, formatVersion, payload));
             && r.Ok? && r.value.payload == payload)
       <==> |payload| <= U16_MAX && formatVersion <= CONFIG_FORMAT_VERSION
  {
    hide Crc32, ImageCrc, Assemble, HeaderOf;
    if |payload| <= U16_MAX && formatVersion <= CONFIG_FORMAT_VERSION {
      DecodeEncoded(pageId, generation, schemaVersion, formatVersion, payload);
    } else {
      var cut := if |payload| > U16_MAX then payload[..U16_MAX] else payload;
      HeaderOfAssembled(StoredPageImage(BuildHeader(pageId, generation, schemaVersion, formatVersion, cut), cut));
    }
  }

  /** A payload that does not fit is cut: what is read back is its first 65535 bytes. */
  lemma LongPayloadIsCut(pageId: u8, generation: bv32, schemaVersion: u16, formatVersion: u8, payload: seq<byte>)
    requires |payload| > 65535 && formatVersion <= 1
    ensures var r := Decode(Encode(pageId, generation, schemaVersion, formatVersion, payload));
            r.Ok? && r.value.payload == payload[..65535] && r.value.header.payloadLength == 65535
  {
    hide Crc32, ImageCrc, Assemble, Decode, HeaderOf;
    DecodeEncoded(pageId, generation, schemaVersion, formatVersion, payload[..65535]);
  }

  /** Bytes that decode are reproduced exactly by encoding what was decoded. */
  lemma EncodeDecoded(raw: seq<byte>)
    requires Decode(raw).Ok?
    ensures var h := Decode(raw).value.header;
            && |Decode(raw).value.payload| <= U16_MAX
            && Encode(h.pageId, h.generation, h.schemaVersion, h.formatVersion, Decode(raw).value.payload) == raw
            && h == BuildHeader(h.pageId, h.generation, h.schemaVersion, h.formatVersion, Decode(raw).value.payload)
  {
    hide Crc32, ImageCrc, Prefix;
    var image := Decode(raw).value;
    var h := image.header;
    AssembleParts(raw);
    ImageCrcIgnoresItself(h, image.payload, 0);
  }

  lemma AssembleParts(raw: seq<byte>)
    requires |raw| >= STORED_PAGE_HEADER_LEN && raw[..4] == CONFIG_IMAGE_MAGIC
    ensures Prefix(HeaderOf(raw)) == raw[..18]
    ensures Assemble(StoredPageImage(HeaderOf(raw), raw[STORED_PAGE_HEADER_LEN..])) == raw
  {
    hide U16Bytes, Reg32Bytes, ByteOf, U16Val, Reg32Val, Val, Prefix;
    var h := HeaderOf(raw);
    PrefixLayout(h);
    ByteOfVal(raw[4]);
    ByteOfVal(raw[5]);
    U16ValRoundTrip(raw[6], raw[7]);
    Reg32ValRoundTrip(raw[8], raw[9], raw[10], raw[11]);
    U16ValRoundTrip(raw[12], raw[13]);
    Reg32ValRoundTrip(raw[14], raw[15], raw[16], raw[17]);
    Reg32ValRoundTrip(raw[18], raw[19], raw[20], raw[21]);
    SameBytes18(Prefix(h), raw);
    assert raw == raw[..18] + [raw[18], raw[19], raw[20], raw[21]] + raw[22..];
  }

  lemma SameBytes18(s: seq<byte>, raw: seq<byte>)
    requires |s| == 18 <= |raw| && s[..4] == raw[..4]
    requires s[4] == raw[4] && s[5] == raw[5]
    requires [s[6], s[7]] == [raw[6], raw[7]]
    requires [s[8], s[9], s[10], s[11]] == [raw[8], raw[9], raw[10], raw[11]]
    requires [s[12], s[13]] == [raw[12], raw[13]]
    requires [s[14], s[15], s[16], s[17]] == [raw[14], raw[15], raw[16], raw[17]]
    ensures s == raw[..18]
  {
    assert forall k :: 0 <= k < 4 ==> s[k] == s[..4][k] && raw[k] == raw[..4][k];
    assert [s[6], s[7]][0] == s[6] && [s[6], s[7]][1] == s[7];
    var g, g' := [s[8], s[9], s[10], s[11]], [raw[8], raw[9], raw[10], raw[11]];
    assert g[0] == g'[0] && g[1] == g'[1] && g[2] == g'[2] && g[3] == g'[3];
    assert [s[12], s[13]][0] == s[12] && [s[12], s[13]][1] == s[13];
    var c, c' := [s[14], s[15], s[16], s[17]], [raw[14], raw[15], raw[16], raw[17]];
    assert c[0] == c'[0] && c[1] == c'[1] && c[2] == c'[2] && c[3] == c'[3];
  }

  // ---- corruption ----

  /** Any corruption confined to four neighbouring bytes, wherever they lie in the image and across
    whatever fields, makes decoding fail. */
  lemma CorruptionIsRejected(good: seq<byte>, bad: seq<byte>, i: nat, w: nat)
    requires Decode(good).Ok? && w <= 4 && DifferOnlyIn(good, bad, i, w)
    ensures Decode(bad).Err?
  {
    hide Feed, Reg32Val, U16Val, Val, Prefix;
    if Decode(bad).Ok? {
      var p, p' := good[22..], bad[22..];
      var q, q' := good[..18], bad[..18];
      assert forall k :: 0 <= k < 18 ==> good[k] == q[k] && bad[k] == q'[k];
      assert forall k :: 22 <= k < |good| ==> good[k] == p[k - 22] && bad[k] == p'[k - 22];
      if p != p' {
        // the window reaches the payload, so it misses the payload CRC
        assert i + w > 22;
        DetectsBurst(POLY32, p, p', Max(i - 22, 0), Min(w, i + w - 22));
        assert false;
      } else if q == q' {
        SameImageCrc(good, bad);
        assert false;
      } else {
        PrefixCorrupted(good, bad, i, w);
        assert false;
      }
    }
  }

  lemma SameImageCrc(good: seq<byte>, bad: seq<byte>)
    requires Decode(good).Ok? && Decode(bad).Ok?
    requires |good| == |bad| && good[..18] == bad[..18] && good[22..] == bad[22..]
    ensures good == bad
  {
    hide Crc32, Reg32Val;
    assert forall k :: 0 <= k < 18 ==> good[k] == good[..18][k] && bad[k] == bad[..18][k];
    AssembleParts(good);
    AssembleParts(bad);
    var h, h' := HeaderOf(good), HeaderOf(bad);
    assert h' == h.(imageCrc := h'.imageCrc);
    ImageCrcIgnoresItself(h, good[22..], h'.imageCrc);
  }

  lemma PrefixCorrupted(good: seq<byte>, bad: seq<byte>, i: nat, w: nat)
    requires Decode(good).Ok? && w <= 4 && DifferOnlyIn(good, bad, i, w)
    requires good[..18] != bad[..18] && good[22..] == bad[22..]
    ensures Decode(bad).Err?
  {
    hide Feed, U16Val, Val, Prefix, Reg32Val;
    if Decode(bad).Ok? {
      AssembleParts(good);
      AssembleParts(bad);
      var q, q', p := good[..18], bad[..18], good[22..];
      assert forall k :: 0 <= k < 18 ==> good[k] == q[k] && bad[k] == q'[k];
      Reg32ValRoundTrip(good[14], good[15], good[16], good[17]);
      Reg32ValRoundTrip(bad[14], bad[15], bad[16], bad[17]);
      SameFour([good[14], good[15], good[16], good[17]], [bad[14], bad[15], bad[16], bad[17]]);
      assert i < 14;
      assert forall k :: 18 <= k < 22 ==> good[k] == bad[k];
      assert (q + p)[..18] == q && (q' + p)[..18] == q';
      DetectsBurst(POLY32, q + p, q' + p, i, w);
    }
  }

  lemma SameFour(g: seq<byte>, b: seq<byte>)
    requires |g| == |b| == 4 && g == b
    ensures g[0] == b[0] && g[1] == b[1] && g[2] == b[2] && g[3] == b[3]
  {
  }

  /** Which error a single wrong byte of a good image is answered with, by the field it lies in: the magic, the format
    version, the length, the payload and its sum each have their own, and everything else is caught by the image sum. */
  lemma WrongByteIsNamed(good: seq<byte>, bad: seq<byte>, i: nat)
    requires Decode(good).Ok? && DifferOnlyIn(good, bad, i, 1)
    ensures i < |good| && Decode(bad).Err?
    ensures var e := Decode(bad).error;
            if i < 4 then e == InvalidMagic
            else if i == 4 then e == UnsupportedFormat(Val(bad[4])) || (Val(bad[4]) <= 1 && e == ImageCrcMismatch)
            else if i == 12 || i == 13 then e == MalformedImage
            else if 14 <= i < 18 || i >= 22 then e == PayloadCrcMismatch
            else e == ImageCrcMismatch
  {
    hide Crc32, ImageCrc, Reg32Val, U16Val, Val;
    CorruptionIsRejected(good, bad, i, 1);
    assert i < |good| && good[i] != bad[i];
    if i < 4 {
      assert bad[..4][i] != good[..4][i];
    } else {
      assert bad[..4] == good[..4];
      if i == 12 || i == 13 {
        LengthDiffers(good[12], good[13], bad[12], bad[13]);
      } else if 14 <= i < 18 {
        assert good[22..] == bad[22..];
        SumDiffers(good, bad, i);
      } else if i >= 22 {
        PayloadDiffers(good, bad, i);
      } else {
        assert good[22..] == bad[22..];
      }
    }
  }

  lemma LengthDiffers(hi: byte, lo: byte, hi': byte, lo': byte)
    requires hi != hi' || lo != lo'
    ensures U16Val(hi, lo) != U16Val(hi', lo')
  {
    hide U16Val;
    U16ValRoundTrip(hi, lo);
    U16ValRoundTrip(hi', lo');
    assert [hi, lo][0] == hi && [hi, lo][1] == lo && [hi', lo'][0] == hi' && [hi', lo'][1] == lo';
  }

  lemma SumDiffers(good: seq<byte>, bad: seq<byte>, i: nat)
    requires |good| == |bad| >= 22 && 14 <= i < 18 && good[i] != bad[i]
    ensures Reg32Val(good[14], good[15], good[16], good[17]) != Reg32Val(bad[14], bad[15], bad[16], bad[17])
  {
    hide Reg32Val;
    Reg32ValRoundTrip(good[14], good[15], good[16], good[17]);
    Reg32ValRoundTrip(bad[14], bad[15], bad[16], bad[17]);
    var g, b := [good[14], good[15], good[16], good[17]], [bad[14], bad[15], bad[16], bad[17]];
    assert g[i - 14] == good[i] && b[i - 14] == bad[i];
  }

  lemma PayloadDiffers(good: seq<byte>, bad: seq<byte>, i: nat)
    requires |good| >= 22 && i >= 22 && DifferOnlyIn(good, bad, i, 1)
    ensures Crc32(good[22..]) != Crc32(bad[22..])
  {
    hide Crc32;
    assert i < |good| && good[i] != bad[i];
    assert good[22..][i - 22] != bad[22..][i - 22];
    DetectsBurst(POLY32, good[22..], bad[22..], i - 22, 1);
    IsCrc32(good[22..]);
    IsCrc32(bad[22..]);
  }

  lemma IsCrc32(s: seq<byte>)
    ensures Crc32(s) == Crc.Crc(POLY32, s)
  {
    hide Feed;
  }
}
