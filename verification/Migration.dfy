/** The forward-only payload migrations of src/config.rs. */
module Migration {
  import opened Bytes
  import opened StoredImage

  const PAGE_BASE_ENGINE: u8 := 0
  const PAGE_PIN_ASSIGNMENT: u8 := 3

  const PAGE0_MAGIC_V1: seq<byte> := [0x53, 0x54, 0x43, 0x32]
  const PIN_ASSIGNMENT_MAGIC_V0: seq<byte> := [0x53, 0x54, 0x50, 0x33]
  const PIN_ASSIGNMENT_MAGIC_V1: seq<byte> := [0x53, 0x54, 0x49, 0x4F]

  datatype ConfigMigrationError =
    | UnsupportedSchemaVersion(schema: u16)
    | UnsupportedFormatVersion(format: u8)
    | PayloadLengthMismatch(expected: nat, actual: nat)

  datatype Migrated = Migrated(payload: seq<byte>, schemaSteps: u16, formatSteps: u8)

  /** The versions with a registered migrator, the same for schemas and formats. */
  predicate HasMigrator(version: u16) {
    version == 0
  }

  function AtLeastOne(b: byte): byte {
    if b < 1 then 1 else b
  }

  /** `schema_migrate_v0_to_v1`: page 0 gets the current magic and at least version 1. */
  function SchemaV0ToV1(pageId: u8, payload: seq<byte>): (r: seq<byte>)
    ensures |r| == |payload|
  {
    if pageId == PAGE_BASE_ENGINE && |payload| > 4
    then PAGE0_MAGIC_V1 + [AtLeastOne(payload[4])] + payload[5..]
    else payload
  }

  /** `format_migrate_v0_to_v1`: page 3 swaps its legacy magic and gets at least version 1. */
  function FormatV0ToV1(pageId: u8, payload: seq<byte>): (r: seq<byte>)
    ensures |r| == |payload|
  {
    if pageId == PAGE_PIN_ASSIGNMENT && |payload| > 4
    then
      var magic := if payload[..4] == PIN_ASSIGNMENT_MAGIC_V0 then PIN_ASSIGNMENT_MAGIC_V1 else payload[..4];
      magic + [AtLeastOne(payload[4])] + payload[5..]
    else payload
  }

  /** The payload after every step a stored image of these versions still has to take. */
  function Forward(pageId: u8, schemaVersion: u16, formatVersion: u8, payload: seq<byte>): (r: seq<byte>)
    ensures |r| == |payload|
  {
    var p := if schemaVersion < SCHEMA_VERSION then SchemaV0ToV1(pageId, payload) else payload;
    if formatVersion < CONFIG_FORMAT_VERSION then FormatV0ToV1(pageId, p) else p
  }

  function Migrate(pageId: u8, image: StoredPageImage, expectedLength: nat): Result<Migrated, ConfigMigrationError> {
    var h := image.header;
    if |image.payload| != expectedLength then Err(PayloadLengthMismatch(expectedLength, |image.payload|))
    else if h.schemaVersion > SCHEMA_VERSION then Err(UnsupportedSchemaVersion(h.schemaVersion))
    else if h.formatVersion > CONFIG_FORMAT_VERSION then Err(UnsupportedFormatVersion(h.formatVersion))
    else Ok(Migrated(Forward(pageId, h.schemaVersion, h.formatVersion, image.payload),
                     SCHEMA_VERSION - h.schemaVersion, CONFIG_FORMAT_VERSION - h.formatVersion))
  }

  /** `migrate_payload_to_current_versions`: one migrator per version step. Both loops stop after exactly the
    version difference, and no step is ever missing its migrator. */
  method MigrateToCurrent(pageId: u8, image: StoredPageImage, expectedLength: nat)
    returns (r: Result<Migrated, ConfigMigrationError>)
    ensures r == Migrate(pageId, image, expectedLength)
  {
    var schemaVersion := image.header.schemaVersion;
    var formatVersion := image.header.formatVersion;
    var payload := image.payload;
    var schemaSteps: u16 := 0;
    var formatSteps: u8 := 0;

    if |payload| != expectedLength {
      return Err(PayloadLengthMismatch(expectedLength, |payload|));
    }
    if schemaVersion > SCHEMA_VERSION {
      return Err(UnsupportedSchemaVersion(schemaVersion));
    }
    while schemaVersion < SCHEMA_VERSION
      invariant image.header.schemaVersion <= schemaVersion <= SCHEMA_VERSION
      invariant schemaSteps == schemaVersion - image.header.schemaVersion
      invariant payload == if image.header.schemaVersion < schemaVersion
                           then SchemaV0ToV1(pageId, image.payload) else image.payload
      decreases SCHEMA_VERSION - schemaVersion
    {
      if !HasMigrator(schemaVersion) {
        assert false; // MissingSchemaMigrator
      }
      payload := SchemaV0ToV1(pageId, payload);
      schemaVersion := SaturatingAdd(schemaVersion, 1, U16_MAX);
      schemaSteps := SaturatingAdd(schemaSteps, 1, U16_MAX);
    }

    if formatVersion > CONFIG_FORMAT_VERSION {
      return Err(UnsupportedFormatVersion(formatVersion));
    }
    ghost var afterSchema := payload;
    while formatVersion < CONFIG_FORMAT_VERSION
      invariant image.header.formatVersion <= formatVersion <= CONFIG_FORMAT_VERSION
      invariant formatSteps == formatVersion - image.header.formatVersion
      invariant payload == if image.header.formatVersion < formatVersion
                           then FormatV0ToV1(pageId, afterSchema) else afterSchema
      decreases CONFIG_FORMAT_VERSION - formatVersion
    {
      if !HasMigrator(formatVersion) {
        assert false; // MissingFormatMigrator
      }
      payload := FormatV0ToV1(pageId, payload);
      formatVersion := SaturatingAdd(formatVersion, 1, 255);
      formatSteps := SaturatingAdd(formatSteps, 1, 255);
    }
    r := Ok(Migrated(payload, schemaSteps, formatSteps));
  }

  /** A second run over a migrated payload finds nothing left to change, whatever versions it starts from. */
  lemma ForwardIsIdempotent(pageId: u8, schemaVersion: u16, formatVersion: u8, payload: seq<byte>)
    ensures var p := Forward(pageId, schemaVersion, formatVersion, payload);
            Forward(pageId, schemaVersion, formatVersion, p) == p
  {
    var p := Forward(pageId, schemaVersion, formatVersion, payload);
    if |payload| > 4 && pageId == PAGE_BASE_ENGINE && schemaVersion < SCHEMA_VERSION {
      assert p == PAGE0_MAGIC_V1 + [p[4]] + p[5..];
    } else if |payload| > 4 && pageId == PAGE_PIN_ASSIGNMENT && formatVersion < CONFIG_FORMAT_VERSION {
      assert p[..4] != PIN_ASSIGNMENT_MAGIC_V0 by {
        var magic := if payload[..4] == PIN_ASSIGNMENT_MAGIC_V0 then PIN_ASSIGNMENT_MAGIC_V1 else payload[..4];
        assert p[..4] == magic;
        assert PIN_ASSIGNMENT_MAGIC_V0[2] != PIN_ASSIGNMENT_MAGIC_V1[2];
      }
      assert p == p[..4] + [p[4]] + p[5..];
    }
  }
}
