/** The configuration store of src/config.rs: RAM pages against generation-counted flash slots,
  each slot with its raw image and the decoded copy kept beside it. */
module ConfigStore {
  import opened Bytes
  import opened Crc
  import opened StoredImage
  import opened Migration

  const PAGE_LENGTHS: seq<nat> := [512, 512, 1024, 512, 512, 512, 512, 512, 512, 256]
  const PAGES: nat := |PAGE_LENGTHS|

  datatype FlashPageSlot = FlashPageSlot(rawImage: seq<byte>, committed: Option<StoredPageImage>, eraseCycles: u32)

  datatype FlashResumeScratch =
    FlashResumeScratch(sessionId: u32, nextBlock: u32, rollingCrc: bv32, image: seq<byte>)

  datatype MigrationReport = MigrationReport(
    pageId: u8, fromSchema: u16, toSchema: u16, fromFormat: u8, toFormat: u8,
    schemaSteps: u16, formatSteps: u8, migrated: bool)

  datatype ConfigStoreError =
    | InvalidPageId
    | PageIdMismatch(expected: u8, actual: u8)
    | PageLengthMismatch
    | NoValidFlashImage
    | FlashImageInvalid(image: ConfigImageError)
    | MigrationFailed(migration: ConfigMigrationError)

  function Successor(generation: bv32): bv32 {
    if generation == 0xFFFF_FFFF then generation else generation + 1
  }

  function DecodeOption(raw: seq<byte>): Option<StoredPageImage> {
    match Decode(raw) case Ok(image) => Some(image) case Err(_) => None
  }

  function CurrentHeader(pageId: u8, generation: bv32, payload: seq<byte>): ConfigPageHeader {
    BuildHeader(pageId, generation, SCHEMA_VERSION, CONFIG_FORMAT_VERSION, payload)
  }

  function CurrentImage(pageId: u8, generation: bv32, payload: seq<byte>): seq<byte> {
    Encode(pageId, generation, SCHEMA_VERSION, CONFIG_FORMAT_VERSION, payload)
  }

  /** `replace_raw_image`: the cached copy is decoded again. */
  function Replaced(slot: FlashPageSlot, raw: seq<byte>): FlashPageSlot {
    slot.(rawImage := raw, committed := DecodeOption(raw))
  }

  /** A slot holding `payload` as page `pageId` at the current versions. */
  function Holding(pageId: u8, generation: bv32, payload: seq<byte>, eraseCycles: u32): FlashPageSlot {
    FlashPageSlot(CurrentImage(pageId, generation, payload),
                  Some(StoredPageImage(CurrentHeader(pageId, generation, payload), payload)),
                  eraseCycles)
  }

  function NextGeneration(slot: FlashPageSlot): bv32 {
    match slot.committed case None => 0 case Some(image) => Successor(image.header.generation)
  }

  /** The slot after its RAM page has been burned into it. */
  function Burned(slot: FlashPageSlot, pageId: u8, ram: seq<byte>): FlashPageSlot {
    Holding(pageId, NextGeneration(slot), ram, SaturatingAdd(slot.eraseCycles, 1, U32_MAX))
  }

  predicate NeedsBurn(slot: FlashPageSlot, ram: seq<byte>) {
    slot.committed.None? || slot.committed.value.payload != ram
  }

  /** `page_header`: the header the RAM page would have, with its generation staged. */
  function StagedHeader(slot: FlashPageSlot, pageId: u8, ram: seq<byte>): ConfigPageHeader {
    var flashGeneration := if slot.committed.Some? then slot.committed.value.header.generation else 0;
    CurrentHeader(
      pageId,
      if slot.committed.Some? && NeedsBurn(slot, ram) then Successor(flashGeneration) else flashGeneration,
      ram)
  }

  /** What importing `raw` as page `pageId` puts in RAM and in the slot, and what it reports. */
  datatype Import = Import(payload: seq<byte>, generation: bv32, report: MigrationReport)

  function Imported(pageId: u8, raw: seq<byte>): Result<Import, ConfigStoreError> {
    if pageId >= PAGES then Err(InvalidPageId)
    else
      match Decode(raw)
      case Err(e) => Err(FlashImageInvalid(e))
      case Ok(image) =>
        var h := image.header;
        if h.pageId != pageId then Err(PageIdMismatch(pageId, h.pageId))
        else
          match Migrate(pageId, image, PAGE_LENGTHS[pageId])
          case Err(e) => Err(MigrationFailed(e))
          case Ok(m) =>
            Ok(Import(m.payload, h.generation,
                      MigrationReport(
                        pageId, h.schemaVersion, SCHEMA_VERSION, h.formatVersion, CONFIG_FORMAT_VERSION,
                        m.schemaSteps, m.formatSteps,
                        m.schemaSteps > 0 || m.formatSteps > 0
                        || h.schemaVersion != SCHEMA_VERSION || h.formatVersion != CONFIG_FORMAT_VERSION)))
  }

  // ---- what a slot and its RAM page keep ----

  /** The cached copy is the decode of the raw bytes, and a valid one is this page at current versions. */
  predicate SlotOk(slot: FlashPageSlot, pageId: u8)
    requires pageId < PAGES
  {
    && slot.committed == DecodeOption(slot.rawImage)
    && (slot.committed.Some? ==>
          var image := slot.committed.value;
          && |image.payload| == PAGE_LENGTHS[pageId]
          && image.header == CurrentHeader(pageId, image.header.generation, image.payload))
  }

  /** Writing the current image of a page into any slot leaves the slot holding it. */
  lemma HoldingOk(slot: FlashPageSlot, pageId: u8, generation: bv32, payload: seq<byte>)
    requires pageId < PAGES && |payload| == PAGE_LENGTHS[pageId]
    ensures Replaced(slot, CurrentImage(pageId, generation, payload))
         == Holding(pageId, generation, payload, slot.eraseCycles)
    ensures SlotOk(Holding(pageId, generation, payload, slot.eraseCycles), pageId)
  {
    hide Decode, Encode, ImageCrc, Crc32;
    DecodeEncoded(pageId, generation, SCHEMA_VERSION, CONFIG_FORMAT_VERSION, payload);
  }

  ghost predicate PagesOk(ram: seq<seq<byte>>, slots: seq<FlashPageSlot>) {
    && |ram| == PAGES && |slots| == PAGES
    && (forall i :: 0 <= i < PAGES ==> |ram[i]| == PAGE_LENGTHS[i])
    && (forall i :: 0 <= i < PAGES ==> SlotOk(slots[i], i))
  }

  lemma PagesOkUpdated(ram: seq<seq<byte>>, slots: seq<FlashPageSlot>, pageId: u8, data: seq<byte>, slot: FlashPageSlot)
    requires PagesOk(ram, slots) && pageId < PAGES
    requires |data| == PAGE_LENGTHS[pageId] && SlotOk(slot, pageId)
    ensures PagesOk(ram[pageId := data], slots[pageId := slot])
  {
    hide SlotOk;
  }

  /** What `burn_page` writes is the slot `Burned` describes, and it always decodes. */
  lemma BurnedOk(slot: FlashPageSlot, pageId: u8, ram: seq<byte>)
    requires pageId < PAGES && |ram| == PAGE_LENGTHS[pageId]
    ensures Replaced(slot, CurrentImage(pageId, NextGeneration(slot), ram)).(
              eraseCycles := SaturatingAdd(slot.eraseCycles, 1, U32_MAX))
         == Burned(slot, pageId, ram)
    ensures SlotOk(Burned(slot, pageId, ram), pageId)
  {
    hide CurrentImage, CurrentHeader, DecodeOption, SlotOk;
    HoldingOk(slot, pageId, NextGeneration(slot), ram);
    HoldingOk(slot.(eraseCycles := SaturatingAdd(slot.eraseCycles, 1, U32_MAX)), pageId, NextGeneration(slot), ram);
  }

  lemma BurnedCommits(slot: FlashPageSlot, pageId: u8, ram: seq<byte>)
    ensures Burned(slot, pageId, ram).committed.Some? && !NeedsBurn(Burned(slot, pageId, ram), ram)
  {
    hide CurrentHeader, CurrentImage;
  }

  class ConfigStore {
    var ramPages: seq<seq<byte>>
    var flashSlots: seq<FlashPageSlot>
    var flashResumeScratch: Option<FlashResumeScratch>

    ghost predicate Valid()
      reads this
    {
      PagesOk(ramPages, flashSlots)
    }

    constructor NewZeroed()
      ensures Valid() && flashResumeScratch == None
      ensures forall i :: 0 <= i < PAGES ==> ramPages[i] == seq(PAGE_LENGTHS[i], k => 0)
      ensures forall i :: 0 <= i < PAGES ==> flashSlots[i].committed.Some? && !NeedsBurn(flashSlots[i], ramPages[i])
      ensures forall i :: 0 <= i < PAGES ==>
                flashSlots[i].committed.value.header.generation == 0 && flashSlots[i].eraseCycles == 0
    {
      hide SlotOk, CurrentImage, CurrentHeader, Replaced, DecodeOption;
      var ram: seq<seq<byte>> := [];
      var slots: seq<FlashPageSlot> := [];
      for i := 0 to PAGES
        invariant |ram| == |slots| == i
        invariant forall j :: 0 <= j < i ==> ram[j] == seq(PAGE_LENGTHS[j], k => 0)
        invariant forall j :: 0 <= j < i ==> SlotOk(slots[j], j) && slots[j].committed.Some?
        invariant forall j :: 0 <= j < i ==> slots[j].committed.value.payload == ram[j]
        invariant forall j :: 0 <= j < i ==>
                    slots[j].committed.value.header.generation == 0 && slots[j].eraseCycles == 0
      {
        var zero: seq<byte> := seq(PAGE_LENGTHS[i], k => 0);
        var erased := FlashPageSlot([], None, 0);
        HoldingOk(erased, i, 0, zero);
        HeaderIs(i, 0, zero);
        ram := ram + [zero];
        slots := slots + [Replaced(erased, CurrentImage(i, 0, zero))];
      }
      ramPages, flashSlots, flashResumeScratch := ram, slots, None;
    }

    /** `import_persisted_page_image`: an error leaves every page as it was; success makes RAM, the cached copy
      and the decode of the raw image the same migrated payload at the imported generation. */
    method ImportPersistedPageImage(pageId: u8, raw: seq<byte>) returns (r: Result<MigrationReport, ConfigStoreError>)
      requires Valid()
      modifies this`ramPages, this`flashSlots
      ensures Valid()
      ensures match Imported(pageId, raw)
              case Err(e) => r == Err(e) && ramPages == old(ramPages) && flashSlots == old(flashSlots)
              case Ok(m) =>
                && r == Ok(m.report)
                && ramPages == old(ramPages)[pageId := m.payload]
                && flashSlots == old(flashSlots)[pageId :=
                     Holding(pageId, m.generation, m.payload, old(flashSlots)[pageId].eraseCycles)]
    {
      hide SlotOk, CurrentImage, CurrentHeader, Replaced, DecodeOption, Decode, Forward;
      if pageId >= |ramPages| {
        return Err(InvalidPageId);
      }
      var expectedLength := |ramPages[pageId]|;
      var decoded := Decode(raw);
      if decoded.Err? {
        return Err(FlashImageInvalid(decoded.error));
      }
      var header := decoded.value.header;
      if header.pageId != pageId {
        return Err(PageIdMismatch(pageId, header.pageId));
      }
      var migrated := MigrateToCurrent(pageId, decoded.value, expectedLength);
      if migrated.Err? {
        return Err(MigrationFailed(migrated.error));
      }
      var payload := migrated.value.payload;
      var migratedRaw := CurrentImage(pageId, header.generation, payload);
      HoldingOk(flashSlots[pageId], pageId, header.generation, payload);
      flashSlots := flashSlots[pageId := Replaced(flashSlots[pageId], migratedRaw)];
      if flashSlots[pageId].committed.None? {
        assert false; // NoValidFlashImage
      }
      ramPages := ramPages[pageId := payload];
      r := Ok(MigrationReport(
                pageId, header.schemaVersion, SCHEMA_VERSION, header.formatVersion, CONFIG_FORMAT_VERSION,
                migrated.value.schemaSteps, migrated.value.formatSteps,
                migrated.value.schemaSteps > 0 || migrated.value.formatSteps > 0
                || header.schemaVersion != SCHEMA_VERSION || header.formatVersion != CONFIG_FORMAT_VERSION));
    }

    method WritePage(pageId: u8, data: seq<byte>) returns (r: Result<(), ConfigStoreError>)
      requires Valid()
      modifies this`ramPages
      ensures Valid()
      ensures r == if pageId >= PAGES then Err(InvalidPageId)
                   else if |data| != PAGE_LENGTHS[pageId] then Err(PageLengthMismatch)
                   else Ok(())
      ensures ramPages == if r.Ok? then old(ramPages)[pageId := data] else old(ramPages)
    {
      if pageId >= |ramPages| {
        return Err(InvalidPageId);
      }
      if |ramPages[pageId]| != |data| {
        return Err(PageLengthMismatch);
      }
      ramPages := ramPages[pageId := data];
      r := Ok(());
    }

    method BurnPage(pageId: u8) returns (r: Result<(), ConfigStoreError>)
      requires Valid()
      modifies this`flashSlots
      ensures Valid()
      ensures r == if pageId >= PAGES then Err(InvalidPageId) else Ok(())
      ensures flashSlots == if r.Err? then old(flashSlots)
                            else old(flashSlots)[pageId := Burned(old(flashSlots)[pageId], pageId, ramPages[pageId])]
    {
      if pageId >= |ramPages| {
        return Err(InvalidPageId);
      }
      hide SlotOk, CurrentImage, Holding, Replaced;
      var slot := flashSlots[pageId];
      var ram := ramPages[pageId];
      BurnedOk(slot, pageId, ram);
      PagesOkUpdated(ramPages, flashSlots, pageId, ram, Burned(slot, pageId, ram));
      var generation := NextGeneration(slot);
      slot := Replaced(slot, CurrentImage(pageId, generation, ram));
      slot := slot.(eraseCycles := SaturatingAdd(slot.eraseCycles, 1, U32_MAX));
      assert ramPages == ramPages[pageId := ram];
      flashSlots := flashSlots[pageId := slot];
      BurnedCommits(old(flashSlots)[pageId], pageId, ram);
      if slot.committed.None? {
        assert false; // NoValidFlashImage
      }
      r := Ok(());
    }

    /** The pages `burn_all_dirty` collects before it burns any. */
    method DirtyPages() returns (dirty: seq<u8>)
      requires Valid()
      ensures forall k, l :: 0 <= k < l < |dirty| ==> dirty[k] < dirty[l]
      ensures forall j :: j in dirty <==> 0 <= j < PAGES && NeedsBurn(flashSlots[j], ramPages[j])
    {
      hide SlotOk;
      dirty := [];
      for i := 0 to PAGES
        invariant forall k, l :: 0 <= k < l < |dirty| ==> dirty[k] < dirty[l]
        invariant forall k :: 0 <= k < |dirty| ==> dirty[k] < i
        invariant forall j :: j in dirty <==> 0 <= j < i && NeedsBurn(flashSlots[j], ramPages[j])
      {
        if NeedsBurn(flashSlots[i], ramPages[i]) {
          dirty := dirty + [i];
        }
        assert forall j :: j in dirty && j != i ==> 0 <= j < i;
      }
    }

    /** `burn_all_dirty`: exactly the dirty pages are burned, once each, and counted. */
    method BurnAllDirty() returns (burned: nat)
      requires Valid()
      modifies this`flashSlots
      ensures Valid()
      ensures burned == |set i | 0 <= i < PAGES && NeedsBurn(old(flashSlots)[i], ramPages[i])|
      ensures forall i :: 0 <= i < PAGES ==>
                flashSlots[i] == if NeedsBurn(old(flashSlots)[i], ramPages[i])
                                 then Burned(old(flashSlots)[i], i, ramPages[i]) else old(flashSlots)[i]
      ensures forall i :: 0 <= i < PAGES ==> !NeedsBurn(flashSlots[i], ramPages[i])
    {
      hide SlotOk, Burned, NeedsBurn;
      var dirty := DirtyPages();
      ghost var before := flashSlots;
      IncreasingCount(dirty);
      assert (set x | x in dirty) == set i | 0 <= i < PAGES && NeedsBurn(before[i], ramPages[i]);
      burned := 0;
      for n := 0 to |dirty|
        invariant Valid() && burned == n
        invariant forall j :: 0 <= j < PAGES ==>
                    flashSlots[j] == if j in dirty[..n] then Burned(before[j], j, ramPages[j]) else before[j]
      {
        assert dirty[n] in dirty && dirty[n] !in dirty[..n];
        assert dirty[..n + 1] == dirty[..n] + [dirty[n]];
        var r := BurnPage(dirty[n]);
        if r.Ok? {
          burned := burned + 1;
        }
      }
      assert dirty[..|dirty|] == dirty;
      forall i | 0 <= i < PAGES
        ensures !NeedsBurn(flashSlots[i], ramPages[i])
      {
        BurnedCommits(before[i], i, ramPages[i]);
      }
    }

    method RestorePageFromFlash(pageId: u8) returns (r: Result<(), ConfigStoreError>)
      requires Valid()
      modifies this`ramPages
      ensures Valid()
      ensures r == if pageId >= PAGES then Err(InvalidPageId)
                   else if flashSlots[pageId].committed.None? then Err(NoValidFlashImage)
                   else Ok(())
      ensures ramPages == if r.Ok? then old(ramPages)[pageId := flashSlots[pageId].committed.value.payload]
                          else old(ramPages)
    {
      hide CurrentHeader, DecodeOption;
      if pageId >= |flashSlots| {
        return Err(InvalidPageId);
      }
      if flashSlots[pageId].committed.None? {
        return Err(NoValidFlashImage);
      }
      ramPages := ramPages[pageId := flashSlots[pageId].committed.value.payload];
      r := Ok(());
    }

    /** `page_header`: of a clean page the header in flash, of a dirty one the header its next burn will commit. */
    method PageHeader(pageId: u8) returns (r: Option<ConfigPageHeader>)
      requires Valid()
      ensures r.Some? <==> pageId < PAGES
      ensures r.Some? && !NeedsBurn(flashSlots[pageId], ramPages[pageId]) ==>
                r.value == flashSlots[pageId].committed.value.header
      ensures r.Some? && NeedsBurn(flashSlots[pageId], ramPages[pageId]) ==>
                r.value == Burned(flashSlots[pageId], pageId, ramPages[pageId]).committed.value.header
    {
      hide SlotOk, StagedHeader, NeedsBurn, Burned;
      if pageId >= |ramPages| {
        return None;
      }
      StagedHeaderIsTruthful(flashSlots[pageId], pageId, ramPages[pageId]);
      r := Some(StagedHeader(flashSlots[pageId], pageId, ramPages[pageId]));
    }

    /** The environment damages a slot: its raw image becomes bytes that do not decode. */
    method DamageFlash(pageId: u8, raw: seq<byte>)
      requires Valid() && pageId < PAGES && Decode(raw).Err?
      modifies this`flashSlots
      ensures Valid()
      ensures flashSlots == old(flashSlots)[pageId := FlashPageSlot(raw, None, old(flashSlots)[pageId].eraseCycles)]
    {
      flashSlots := flashSlots[pageId := Replaced(flashSlots[pageId], raw)];
    }

    method WriteFlashResumeScratch(scratch: FlashResumeScratch)
      modifies this`flashResumeScratch
      ensures flashResumeScratch == Some(scratch)
    {
      flashResumeScratch := Some(scratch);
    }

    method ClearFlashResumeScratch()
      modifies this`flashResumeScratch
      ensures flashResumeScratch == None
    {
      flashResumeScratch := None;
    }
  }

  lemma {:induction false} IncreasingCount(s: seq<int>)
    requires forall k, l :: 0 <= k < l < |s| ==> s[k] < s[l]
    ensures |set x | x in s| == |s|
    decreases |s|
  {
    if s == [] {
    } else {
      var front, last := s[..|s| - 1], s[|s| - 1];
      IncreasingCount(front);
      assert s == front + [last];
      assert last !in set x | x in front;
      assert (set x | x in s) == (set x | x in front) + {last};
    }
  }

  // ---- properties of the operations ----

  /** The staged header is the committed one while the page is clean, and while it is dirty it is, field for field,
    the header the next burn commits. */
  lemma StagedHeaderIsTruthful(slot: FlashPageSlot, pageId: u8, ram: seq<byte>)
    requires pageId < PAGES && SlotOk(slot, pageId)
    ensures !NeedsBurn(slot, ram) ==> StagedHeader(slot, pageId, ram) == slot.committed.value.header
    ensures NeedsBurn(slot, ram) ==> StagedHeader(slot, pageId, ram) == Burned(slot, pageId, ram).committed.value.header
  {
  }

  /** A burned page is clean, and what survives in flash is the RAM page. */
  lemma BurnedIsRecoverable(slot: FlashPageSlot, pageId: u8, ram: seq<byte>)
    requires pageId < PAGES && |ram| == PAGE_LENGTHS[pageId]
    ensures SlotOk(Burned(slot, pageId, ram), pageId) && !NeedsBurn(Burned(slot, pageId, ram), ram)
    ensures var d := Decode(Burned(slot, pageId, ram).rawImage); d.Ok? && d.value.payload == ram
  {
    hide Decode;
    BurnedOk(slot, pageId, ram);
    BurnedCommits(slot, pageId, ram);
  }

  lemma HeaderIs(pageId: u8, generation: bv32, payload: seq<byte>)
    ensures var h := CurrentHeader(pageId, generation, payload);
            && h.pageId == pageId && h.generation == generation
            && h.schemaVersion == 1 && h.formatVersion == 1
            && h.payloadCrc == Crc32(payload)
            && (|payload| < 0x1_0000 ==> h.payloadLength == |payload|)
  {
    hide Crc32, ImageCrc;
  }

  /** A burn stores the RAM page one generation on, the first one as generation 0 and the last one staying the last, and
    counts one more erase; cached copy and raw image say the same. */
  lemma BurnRaisesTheGeneration(slot: FlashPageSlot, pageId: u8, ram: seq<byte>)
    requires pageId < PAGES && |ram| == PAGE_LENGTHS[pageId]
    ensures var b := Burned(slot, pageId, ram);
            && b.committed.Some?
            && Decode(b.rawImage) == Ok(b.committed.value)
            && b.committed.value.payload == ram
            && b.committed.value.header.pageId == pageId
            && b.committed.value.header.schemaVersion == 1 && b.committed.value.header.formatVersion == 1
            && b.committed.value.header.generation
               == (match slot.committed
                   case None => 0
                   case Some(image) =>
                     if image.header.generation == 0xFFFF_FFFF then 0xFFFF_FFFF else image.header.generation + 1)
            && b.eraseCycles == Min(slot.eraseCycles + 1, 0xFFFF_FFFF)
  {
    BurnedOk(slot, pageId, ram);
    HeaderIs(pageId, NextGeneration(slot), ram);
    hide Decode, CurrentHeader, CurrentImage;
  }

  /** An import succeeds exactly for the bytes that encoding some payload of the page's length, as that page and at
    versions this firmware knows, produces. */
  lemma ImportSucceedsExactly(pageId: u8, raw: seq<byte>)
    ensures Imported(pageId, raw).Ok?
       <==> && pageId < PAGES
            && exists generation: bv32, schemaVersion: u16, formatVersion: u8, payload: seq<byte> ::
                 && |payload| == PAGE_LENGTHS[pageId]
                 && schemaVersion <= SCHEMA_VERSION && formatVersion <= CONFIG_FORMAT_VERSION
                 && raw == Encode(pageId, generation, schemaVersion, formatVersion, payload)
  {
    hide Decode, Encode, ImageCrc, Crc32, BuildHeader;
    if Imported(pageId, raw).Ok? {
      EncodeDecoded(raw);
      SupportedFormat(raw);
      var h, payload := Decode(raw).value.header, Decode(raw).value.payload;
      assert raw == Encode(pageId, h.generation, h.schemaVersion, h.formatVersion, payload);
    }
    if generation: bv32, schemaVersion: u16, formatVersion: u8, payload: seq<byte> :|
         && pageId < PAGES && |payload| == PAGE_LENGTHS[pageId]
         && schemaVersion <= SCHEMA_VERSION && formatVersion <= CONFIG_FORMAT_VERSION
         && raw == Encode(pageId, generation, schemaVersion, formatVersion, payload)
    {
      DecodeEncoded(pageId, generation, schemaVersion, formatVersion, payload);
      BuiltFrom(pageId, generation, schemaVersion, formatVersion, payload);
    }
  }

  lemma SupportedFormat(raw: seq<byte>)
    requires Decode(raw).Ok?
    ensures Decode(raw).value.header.formatVersion <= CONFIG_FORMAT_VERSION
  {
    hide Crc32, ImageCrc;
  }

  lemma BuiltFrom(pageId: u8, generation: bv32, schemaVersion: u16, formatVersion: u8, payload: seq<byte>)
    ensures var h := BuildHeader(pageId, generation, schemaVersion, formatVersion, payload);
            h.pageId == pageId && h.schemaVersion == schemaVersion && h.formatVersion == formatVersion
  {
  }

  /** An import keeps the page's length and generation, counts exactly the version steps it took, and leaves an
    image whose own import changes nothing and reports no migration. */
  lemma ImportIsIdempotent(pageId: u8, raw: seq<byte>)
    requires Imported(pageId, raw).Ok?
    ensures var m := Imported(pageId, raw).value; var h := Decode(raw).value.header;
            && |m.payload| == PAGE_LENGTHS[pageId]
            && m.generation == h.generation
            && m.report.schemaSteps == SCHEMA_VERSION - h.schemaVersion
            && m.report.formatSteps == CONFIG_FORMAT_VERSION - h.formatVersion
            && Imported(pageId, CurrentImage(pageId, m.generation, m.payload))
               == Ok(Import(m.payload, m.generation,
                            MigrationReport(pageId, SCHEMA_VERSION, SCHEMA_VERSION, CONFIG_FORMAT_VERSION,
                                            CONFIG_FORMAT_VERSION, 0, 0, false)))
  {
    hide Decode, Encode, ImageCrc, Crc32;
    var m := Imported(pageId, raw).value;
    DecodeEncoded(pageId, m.generation, SCHEMA_VERSION, CONFIG_FORMAT_VERSION, m.payload);
  }
}
