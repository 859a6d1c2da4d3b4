/** What importing a stored image of any page and version does, byte for byte: src/config.rs. */
module ImportMeaning {
  import opened Bytes
  import opened Crc
  import opened StoredImage
  import opened Migration
  import opened ConfigStore
  import PinAssignments
  import PinPages

  const TUNE_V1: seq<byte> := [0x53, 0x54, 0x43, 0x32]
  const PINS_V0: seq<byte> := [0x53, 0x54, 0x50, 0x33]
  const PINS_V1: seq<byte> := [0x53, 0x54, 0x49, 0x4F]

  /** What the payload `p` of a page becomes when it is brought from those versions to the current ones: page 0 from
    schema version 0 gets the current magic and a version of at least 1, page 3 from format version 0 gets the current
    magic in place of the old one, any other being kept, and a version of at least 1; nothing else changes. */
  ghost predicate Upgraded(pageId: u8, schemaVersion: u16, formatVersion: u8, p: seq<byte>, q: seq<byte>) {
    && |q| == |p|
    && if pageId == 0 && schemaVersion == 0 && |p| > 4 then
         && q[..4] == TUNE_V1
         && q[4] == (if p[4] == 0 then 1 else p[4])
         && q[5..] == p[5..]
       else if pageId == 3 && formatVersion == 0 && |p| > 4 then
         && q[..4] == (if p[..4] == PINS_V0 then PINS_V1 else p[..4])
         && q[4] == (if p[4] == 0 then 1 else p[4])
         && q[5..] == p[5..]
       else q == p
  }

  lemma ForwardUpgrades(pageId: u8, schemaVersion: u16, formatVersion: u8, p: seq<byte>)
    requires schemaVersion <= 1 && formatVersion <= 1
    ensures Upgraded(pageId, schemaVersion, formatVersion, p, Forward(pageId, schemaVersion, formatVersion, p))
  {
  }

  /** How importing as page `pageId` any image there can be turns out: the image of page `own` at generation `g`, at
    those versions, with `payload`. The errors come in this order; what is stored is the payload brought to the
    current versions, at the image's generation, and the report counts the version steps. */
  lemma ImportOfAnyImage(
      pageId: u8, own: u8, g: bv32, schemaVersion: u16, formatVersion: u8, payload: seq<byte>)
    requires |payload| < 0x1_0000
    ensures var r := Imported(pageId, Encode(own, g, schemaVersion, formatVersion, payload));
            if pageId >= 10 then r == Err(InvalidPageId)
            else if formatVersion > 1 then r == Err(FlashImageInvalid(UnsupportedFormat(formatVersion)))
            else if own != pageId then r == Err(PageIdMismatch(pageId, own))
            else if |payload| != PAGE_LENGTHS[pageId] then
              r == Err(MigrationFailed(PayloadLengthMismatch(PAGE_LENGTHS[pageId], |payload|)))
            else if schemaVersion > 1 then r == Err(MigrationFailed(UnsupportedSchemaVersion(schemaVersion)))
            else
              && r.Ok?
              && Upgraded(pageId, schemaVersion, formatVersion, payload, r.value.payload)
              && r.value.generation == g
              && r.value.report
                 == MigrationReport(pageId, schemaVersion, 1, formatVersion, 1, 1 - schemaVersion, 1 - formatVersion,
                                    schemaVersion == 0 || formatVersion == 0)
  {
    hide Decode, Encode, BuildHeader, Crc32, ImageCrc, Forward, Upgraded;
    if formatVersion <= 1 {
      DecodeEncoded(own, g, schemaVersion, formatVersion, payload);
      VersionsBuilt(own, g, schemaVersion, formatVersion, payload);
      if schemaVersion <= 1 {
        ForwardUpgrades(pageId, schemaVersion, formatVersion, payload);
      }
    } else {
      NewerFormat(own, g, schemaVersion, formatVersion, payload);
    }
  }

  lemma VersionsBuilt(own: u8, g: bv32, schemaVersion: u16, formatVersion: u8, payload: seq<byte>)
    ensures var h := BuildHeader(own, g, schemaVersion, formatVersion, payload);
            && h.pageId == own && h.generation == g
            && h.schemaVersion == schemaVersion && h.formatVersion == formatVersion
  {
  }

  lemma NewerFormat(own: u8, g: bv32, schemaVersion: u16, formatVersion: u8, payload: seq<byte>)
    requires formatVersion > 1 && |payload| < 0x1_0000
    ensures Decode(Encode(own, g, schemaVersion, formatVersion, payload)) == Err(UnsupportedFormat(formatVersion))
  {
    hide Crc32, ImageCrc, Assemble, HeaderOf;
    HeaderOfAssembled(StoredPageImage(BuildHeader(own, g, schemaVersion, formatVersion, payload), payload));
  }

  /** An imported pin page of format version 0 decodes to the assignments it held, its version read as at least 1. */
  lemma ImportedPinsReadTheSame(board: PinAssignments.Board, p: seq<byte>, q: seq<byte>)
    requires |p| >= 6 && Upgraded(3, 1, 0, p, q)
    ensures PinPages.Deserialized(board, q) == PinPages.Deserialized(board, if p[4] == 0 then p[4 := 1] else p)
  {
    hide PinPages.ParseEntries, PinAssignments.Validate;
    var r := if p[4] == 0 then p[4 := 1] else p;
    assert r[..4] == p[..4] && q[4] == r[4];
    assert q[4..] == r[4..] by {
      assert q[4..] == [q[4]] + q[5..] && r[4..] == [r[4]] + r[5..];
    }
    assert q == q[..4] + q[4..] && r == r[..4] + r[4..];
    if p[..4] == PINS_V0 {
      PinPages.LegacyMagicReadsTheSame(board, q);
      assert PinPages.PAGE_MAGIC_LEGACY + q[4..] == r;
    } else {
      assert q == r;
    }
  }
}
