/** The pin assignments the firmware keeps as a cache of page 3: booting, pin-assign, write-page and burn-page of
  src/transport.rs. */
module PinRuntime {
  import opened Bytes
  import opened PinAssignments
  import opened PinPages
  import ConfigStore
  import opened StoredPages
  import StoredImage

  const PIN_PAGE: u8 := 3

  datatype Refusal = MalformedPayload | StorageFailure

  datatype Response = Ack(pageId: u8, needsBurn: bool) | Nack(code: Refusal)

  datatype PinState = PinState(assignments: seq<Resolved>, pages: Pages)

  /** A command after its packet has been decoded; decrypting a page is a verdict from outside. */
  datatype Command =
    | PinAssign(overrides: Option<seq<Request>>)
    | WritePage(page: Result<(u8, seq<byte>), Refusal>)
    | BurnPage(pageId: Option<u8>)

  function NeedsBurn(p: Pages, pageId: u8): bool
    requires PagesShaped(p) && pageId < ConfigStore.PAGES
  {
    ConfigStore.NeedsBurn(p.slots[pageId], p.ram[pageId])
  }

  /** The cache agrees with the page: the page decodes to the assignments, and they are a set validation made. */
  predicate Agrees(board: Board, v: PinState) {
    && PagesShaped(v.pages)
    && IsValidated(board, v.assignments)
    && Deserialized(board, v.pages.ram[PIN_PAGE]) == Ok(v.assignments)
  }

  /** The page the assignments serialize to, which always fits. */
  function PinPage(board: Board, assignments: seq<Resolved>): (page: seq<byte>)
    requires IsValidated(board, assignments) && WellFormed(board)
    ensures |page| == ConfigStore.PAGE_LENGTHS[PIN_PAGE]
    ensures Serialized(assignments, ConfigStore.PAGE_LENGTHS[PIN_PAGE]) == Ok(page)
    ensures Deserialized(board, page) == Ok(assignments)
  {
    PageRoundTrip(board, assignments, ConfigStore.PAGE_LENGTHS[PIN_PAGE]);
    Serialized(assignments, ConfigStore.PAGE_LENGTHS[PIN_PAGE]).value
  }

  /** What a boot makes of the pages that survived. */
  function Booted(board: Board, defaults: seq<Request>, p: Pages): PinState
    requires WellFormed(board) && Validate(board, defaults).Ok? && PagesShaped(p)
  {
    ValidateIsIdempotent(board, defaults);
    var assignments := Validate(board, defaults).value;
    PinState(assignments, WithBurned(WithRam(p, PIN_PAGE, PinPage(board, assignments)), PIN_PAGE))
  }

  function Handled(board: Board, v: PinState, c: Command): (Response, PinState)
    requires WellFormed(board) && Agrees(board, v)
  {
    match c
    case PinAssign(None) => (Nack(MalformedPayload), v)
    case PinAssign(Some(overrides)) =>
      var merged := Merged(RequestsOf(v.assignments), overrides);
      if overrides == [] || Validate(board, merged).Err? then (Nack(MalformedPayload), v)
      else
        ValidateIsIdempotent(board, merged);
        var assignments := Validate(board, merged).value;
        var pages := WithRam(v.pages, PIN_PAGE, PinPage(board, assignments));
        (Ack(PIN_PAGE, NeedsBurn(pages, PIN_PAGE)), PinState(assignments, pages))
    case WritePage(Err(e)) => (Nack(e), v)
    case WritePage(Ok((pageId, data))) =>
      if pageId >= ConfigStore.PAGES || |data| != ConfigStore.PAGE_LENGTHS[pageId] then (Nack(StorageFailure), v)
      else
        var pages := WithRam(v.pages, pageId, data);
        if pageId != PIN_PAGE then (Ack(pageId, NeedsBurn(pages, pageId)), v.(pages := pages))
        else
          (match Deserialized(board, data)
          case Ok(assignments) => (Ack(pageId, NeedsBurn(pages, pageId)), PinState(assignments, pages))
          case Err(_) =>
            (Nack(MalformedPayload), v.(pages := WithRam(pages, PIN_PAGE, PinPage(board, v.assignments)))))
    case BurnPage(None) => (Nack(MalformedPayload), v)
    case BurnPage(Some(pageId)) =>
      if pageId >= ConfigStore.PAGES then (Nack(StorageFailure), v)
      else (Ack(pageId, false), v.(pages := WithBurned(v.pages, pageId)))
  }

  class PinRuntime {
    const board: Board
    const store: ConfigStore.ConfigStore
    var pinAssignments: seq<Resolved>

    ghost function View(): PinState
      reads this, store
    {
      PinState(pinAssignments, Pages(store.ramPages, store.flashSlots))
    }

    ghost predicate Valid()
      reads this, store
    {
      WellFormed(board) && store.Valid() && Agrees(board, View())
    }

    /** `new_with_store`: the default set replaces whatever page 3 held, in RAM and in flash. */
    constructor (board: Board, defaults: seq<Request>, store: ConfigStore.ConfigStore)
      requires WellFormed(board) && Validate(board, defaults).Ok? && store.Valid()
      modifies store
      ensures Valid() && this.board == board && this.store == store
      ensures View() == Booted(board, defaults, old(Pages(store.ramPages, store.flashSlots)))
    {
      hide Validate, Serialized, Deserialized, ConfigStore.Burned, ConfigStore.SlotOk;
      ValidateIsIdempotent(board, defaults);
      var validated := ValidateAssignmentSet(board, defaults);
      if validated.Err? {
        assert false; // the default assignments are valid for the board
      }
      ghost var fits := PinPage(board, validated.value);
      var page := SerializeToPage(validated.value, |store.ramPages[PIN_PAGE]|);
      var written := store.WritePage(PIN_PAGE, page.value);
      var burned := store.BurnPage(PIN_PAGE);
      this.board, this.store, pinAssignments := board, store, validated.value;
    }

    method PinAssign(decoded: Option<seq<Request>>) returns (r: Response)
      requires Valid()
      modifies this, store
      ensures Valid()
      ensures (r, View()) == Handled(board, old(View()), Command.PinAssign(decoded))
    {
      hide Validate, Serialized, Deserialized, Merged, ConfigStore.NeedsBurn, ConfigStore.SlotOk;
      if decoded.None? || decoded.value == [] {
        return Nack(MalformedPayload);
      }
      var applied := ApplyOverrides(board, pinAssignments, decoded.value);
      if applied.Err? {
        return Nack(MalformedPayload);
      }
      ValidateIsIdempotent(board, Merged(RequestsOf(pinAssignments), decoded.value));
      ghost var fits := PinPage(board, applied.value);
      pinAssignments := applied.value;
      var page := SerializeToPage(pinAssignments, |store.ramPages[PIN_PAGE]|);
      if page.Err? {
        assert false; // PayloadTooLarge: a validated set always fits
      }
      var written := store.WritePage(PIN_PAGE, page.value);
      r := Ack(PIN_PAGE, ConfigStore.NeedsBurn(store.flashSlots[PIN_PAGE], store.ramPages[PIN_PAGE]));
    }

    method WritePage(page: Result<(u8, seq<byte>), Refusal>) returns (r: Response)
      requires Valid()
      modifies this, store
      ensures Valid()
      ensures (r, View()) == Handled(board, old(View()), Command.WritePage(page))
    {
      hide Validate, Serialized, Deserialized, ConfigStore.NeedsBurn, ConfigStore.SlotOk;
      if page.Err? {
        return Nack(page.error);
      }
      var pageId, data := page.value.0, page.value.1;
      var previous := pinAssignments;
      var written := store.WritePage(pageId, data);
      if written.Err? {
        return Nack(StorageFailure);
      }
      if pageId == PIN_PAGE {
        var reloaded := DeserializeFromPage(board, store.ramPages[PIN_PAGE]);
        if reloaded.Err? {
          ghost var fits := PinPage(board, previous);
          var restored := SerializeToPage(previous, |store.ramPages[PIN_PAGE]|);
          if restored.Err? {
            assert false; // the page of zeros written when the previous set does not fit
          }
          var rewritten := store.WritePage(PIN_PAGE, restored.value);
          pinAssignments := previous;
          return Nack(MalformedPayload);
        }
        DeserializedIsValidated(board, data);
        pinAssignments := reloaded.value;
      }
      r := Ack(pageId, ConfigStore.NeedsBurn(store.flashSlots[pageId], store.ramPages[pageId]));
    }

    method BurnPage(pageId: Option<u8>) returns (r: Response)
      requires Valid()
      modifies store
      ensures Valid()
      ensures (r, View()) == Handled(board, old(View()), Command.BurnPage(pageId))
    {
      hide Validate, Serialized, Deserialized, ConfigStore.Burned, ConfigStore.SlotOk;
      if pageId.None? {
        return Nack(MalformedPayload);
      }
      var burned := store.BurnPage(pageId.value);
      if burned.Err? {
        return Nack(StorageFailure);
      }
      r := Ack(pageId.value, false);
    }
  }

  // ---- what holds over every run ----

  lemma BootAgrees(board: Board, defaults: seq<Request>, p: Pages)
    requires WellFormed(board) && Validate(board, defaults).Ok? && PagesShaped(p)
    ensures Agrees(board, Booted(board, defaults, p))
  {
    hide Validate, Serialized, Deserialized, ConfigStore.Burned;
    ValidateIsIdempotent(board, defaults);
  }

  /** Every command keeps the agreement. A refused one keeps the assignments, the flash and every page other than 3,
    and page 3 keeps its bytes up to the magic the firmware writes. */
  lemma HandledAgrees(board: Board, v: PinState, c: Command)
    requires WellFormed(board) && Agrees(board, v)
    ensures var (r, w) := Handled(board, v, c);
            && Agrees(board, w)
            && (r.Nack? ==>
                  && w.assignments == v.assignments
                  && w.pages.slots == v.pages.slots
                  && (w == v || w.pages.ram == v.pages.ram[PIN_PAGE := PAGE_MAGIC + v.pages.ram[PIN_PAGE][4..]]))
  {
    hide Validate, Serialized, Deserialized, Merged, ConfigStore.Burned, ConfigStore.NeedsBurn;
    match c {
      case PinAssign(Some(overrides)) =>
        var merged := Merged(RequestsOf(v.assignments), overrides);
        if Validate(board, merged).Ok? {
          ValidateIsIdempotent(board, merged);
        }
      case WritePage(Ok((pageId, data))) =>
        if Deserialized(board, data).Ok? {
          DeserializedIsValidated(board, data);
        } else if pageId == PIN_PAGE {
          SerializeDecoded(board, v.pages.ram[PIN_PAGE]);
        }
      case _ =>
    }
  }

  /** Power may be lost between commands: the pages survive and the firmware boots again. */
  datatype Event = Commanded(command: Command) | Rebooted

  ghost function Run(board: Board, defaults: seq<Request>, p: Pages, events: seq<Event>): (v: PinState)
    requires WellFormed(board) && Validate(board, defaults).Ok? && PagesShaped(p)
    ensures Agrees(board, v)
  {
    if events == [] then
      BootAgrees(board, defaults, p);
      Booted(board, defaults, p)
    else
      var v := Run(board, defaults, p, events[..|events| - 1]);
      match events[|events| - 1]
      case Rebooted => BootAgrees(board, defaults, v.pages); Booted(board, defaults, v.pages)
      case Commanded(c) => HandledAgrees(board, v, c); Handled(board, v, c).1
  }

  /** After any run the assignments are a safe set and page 3 is, byte for byte, their serialization, but for a
    magic that may still be the old one. */
  lemma RunIsSafe(board: Board, defaults: seq<Request>, p: Pages, events: seq<Event>)
    requires WellFormed(board) && Validate(board, defaults).Ok? && PagesShaped(p)
    ensures var v := Run(board, defaults, p, events); var page := v.pages.ram[PIN_PAGE];
            && Deserialized(board, page) == Ok(v.assignments)
            && ConflictFree(board, RequestsOf(v.assignments))
            && Serialized(v.assignments, |page|) == Ok(PAGE_MAGIC + page[4..])
  {
    hide Validate, Serialized, Deserialized;
    var v := Run(board, defaults, p, events);
    SerializeDecoded(board, v.pages.ram[PIN_PAGE]);
    ValidateMeaning(board, RequestsOf(v.assignments));
  }

  /** A pin-assign is accepted exactly when the list is not empty and the merged requests have no conflict; then
    every function has the pin of its last override, or its old one. */
  lemma PinAssignMeaning(board: Board, v: PinState, overrides: seq<Request>, f: EcuFunction)
    requires WellFormed(board) && Agrees(board, v)
    ensures var (r, w) := Handled(board, v, PinAssign(Some(overrides)));
            && (r.Ack? <==> overrides != [] && ConflictFree(board, Merged(RequestsOf(v.assignments), overrides)))
            && (r.Ack? ==>
                  PinFor(RequestsOf(w.assignments), f)
                  == if LastFor(overrides, f).Some? then LastFor(overrides, f)
                     else PinFor(RequestsOf(v.assignments), f))
  {
    hide Validate, Serialized, Deserialized, ConflictFree;
    var merged := Merged(RequestsOf(v.assignments), overrides);
    ValidateMeaning(board, merged);
    ValidatedFits(board, v.assignments);
    OverridesWin(RequestsOf(v.assignments), overrides, f);
    if Validate(board, merged).Ok? {
      ValidateIsIdempotent(board, merged);
    }
  }

  // ---- what an acknowledgement means ----

  /** The lengths of the ten pages. */
  predicate FitsPage(pageId: u8, data: seq<byte>) {
    pageId < 10 && |data| == [512, 512, 1024, 512, 512, 512, 512, 512, 512, 256][pageId]
  }

  /** What is in flash differs from what is in RAM, or nothing valid is in flash. */
  predicate Unburned(p: Pages, pageId: u8)
    requires pageId < |p.ram| && pageId < |p.slots|
  {
    match p.slots[pageId].committed case None => true case Some(image) => image.payload != p.ram[pageId]
  }

  /** A page write is acknowledged exactly when the page exists, the data has its length and, for page 3, decodes. Then
    RAM holds the data in that page, everything else is as before but for the assignments page 3 decodes to, and the
    answer says whether the page is to be burned. A page 3 that does not decode is replaced by the assignments in force,
    serialized. */
  lemma WriteAcceptedExactly(board: Board, v: PinState, pageId: u8, data: seq<byte>)
    requires WellFormed(board) && Agrees(board, v)
    ensures var (r, w) := Handled(board, v, WritePage(Ok((pageId, data))));
            && (r.Ack? <==> FitsPage(pageId, data) && (pageId == 3 ==> Deserialized(board, data).Ok?))
            && (r == Nack(StorageFailure) <==> !FitsPage(pageId, data))
            && (r.Ack? ==>
                  && w.pages.ram == v.pages.ram[pageId := data]
                  && w.pages.slots == v.pages.slots
                  && w.assignments == (if pageId == 3 then Deserialized(board, data).value else v.assignments)
                  && r == Ack(pageId, Unburned(w.pages, pageId)))
            && (r == Nack(StorageFailure) ==> w == v)
            && (r == Nack(MalformedPayload) ==>
                  && |v.pages.ram| == 10
                  && w.assignments == v.assignments && w.pages.slots == v.pages.slots
                  && (forall q :: 0 <= q < 10 && q != 3 ==> w.pages.ram[q] == v.pages.ram[q])
                  && Serialized(v.assignments, 512) == Ok(w.pages.ram[3]))
  {
    hide Validate, Serialized, Deserialized;
  }

  /** A burn is acknowledged exactly when the page exists; then that slot alone changes, to hold the RAM page one
    generation on, and the page needs no burning any more. */
  lemma BurnAcceptedExactly(board: Board, v: PinState, pageId: u8)
    requires WellFormed(board) && Agrees(board, v)
    ensures var (r, w) := Handled(board, v, BurnPage(Some(pageId)));
            && (r.Ack? <==> pageId < 10)
            && w.assignments == v.assignments && w.pages.ram == v.pages.ram
            && |w.pages.slots| == |v.pages.slots| == 10
            && (forall q :: 0 <= q < 10 && q != pageId ==> w.pages.slots[q] == v.pages.slots[q])
            && (r.Ack? ==>
                  && r == Ack(pageId, false) && !Unburned(w.pages, pageId)
                  && w.pages.slots[pageId].committed.value.payload == v.pages.ram[pageId]
                  && w.pages.slots[pageId].eraseCycles == Min(v.pages.slots[pageId].eraseCycles + 1, 0xFFFF_FFFF)
                  && w.pages.slots[pageId].committed.value.header.generation
                     == (match v.pages.slots[pageId].committed
                         case None => 0
                         case Some(image) =>
                           if image.header.generation == 0xFFFF_FFFF then 0xFFFF_FFFF else image.header.generation + 1))
  {
    hide Validate, Serialized, Deserialized, ConfigStore.Burned;
    if pageId < ConfigStore.PAGES {
      ConfigStore.BurnRaisesTheGeneration(v.pages.slots[pageId], pageId, v.pages.ram[pageId]);
    }
  }

  /** Which commands are refused, and how: a page or burn that the store has no such page for, or that failed before it
    came to the store; everything else that is not acknowledged is malformed. */
  lemma RefusedExactly(board: Board, v: PinState, c: Command)
    requires WellFormed(board) && Agrees(board, v)
    ensures var r := Handled(board, v, c).0;
            && (r == Nack(StorageFailure) <==>
                  match c
                  case PinAssign(_) => false
                  case WritePage(Err(e)) => e == StorageFailure
                  case WritePage(Ok((pageId, data))) => !FitsPage(pageId, data)
                  case BurnPage(pageId) => pageId.Some? && pageId.value >= 10)
            && (r == Nack(MalformedPayload) <==>
                  match c
                  case PinAssign(None) => true
                  case PinAssign(Some(overrides)) =>
                    overrides == [] || !ConflictFree(board, Merged(RequestsOf(v.assignments), overrides))
                  case WritePage(Err(e)) => e == MalformedPayload
                  case WritePage(Ok((pageId, data))) =>
                    FitsPage(pageId, data) && pageId == 3 && Deserialized(board, data).Err?
                  case BurnPage(pageId) => pageId.None?)
            && (r.Nack? && !c.WritePage? ==> Handled(board, v, c).1 == v)
            && (c.WritePage? && c.page.Err? ==> Handled(board, v, c).1 == v)
  {
    hide Validate, Serialized, Deserialized, ConflictFree;
    if c.PinAssign? && c.overrides.Some? {
      ValidateMeaning(board, Merged(RequestsOf(v.assignments), c.overrides.value));
    }
  }

  /** An accepted pin-assign changes RAM page 3 alone, to the serialization of the new assignments. */
  lemma PinAssignStores(board: Board, v: PinState, overrides: seq<Request>)
    requires WellFormed(board) && Agrees(board, v)
    requires Handled(board, v, PinAssign(Some(overrides))).0.Ack?
    ensures var (r, w) := Handled(board, v, PinAssign(Some(overrides)));
            && |v.pages.ram| == 10
            && w.pages.slots == v.pages.slots
            && (forall q :: 0 <= q < 10 && q != 3 ==> w.pages.ram[q] == v.pages.ram[q])
            && Serialized(w.assignments, 512) == Ok(w.pages.ram[3])
            && r == Ack(3, Unburned(w.pages, 3))
  {
    hide Validate, Serialized, Deserialized, Merged;
    ValidateIsIdempotent(board, Merged(RequestsOf(v.assignments), overrides));
  }

  /** Burning page 3 leaves in flash an image that decodes to the assignments in force. */
  lemma BurnedPinPageReadsBack(board: Board, v: PinState)
    requires WellFormed(board) && Agrees(board, v)
    ensures var (r, w) := Handled(board, v, BurnPage(Some(PIN_PAGE)));
            var image := StoredImage.Decode(w.pages.slots[PIN_PAGE].rawImage);
            && r == Ack(PIN_PAGE, false)
            && image.Ok?
            && Deserialized(board, image.value.payload) == Ok(w.assignments)
  {
    hide Validate, Serialized, Deserialized, ConfigStore.Burned, StoredImage.Decode, ConfigStore.SlotOk;
    ConfigStore.BurnedIsRecoverable(v.pages.slots[PIN_PAGE], PIN_PAGE, v.pages.ram[PIN_PAGE]);
  }

  // ---- what a boot does to the assignments ----

  lemma OneMore(board: Board, defaults: seq<Request>, p: Pages, front: seq<Event>, e: Event)
    requires WellFormed(board) && Validate(board, defaults).Ok? && PagesShaped(p)
    ensures var v := Run(board, defaults, p, front);
            Run(board, defaults, p, front + [e])
            == match e case Rebooted => Booted(board, defaults, v.pages) case Commanded(c) => Handled(board, v, c).1
  {
    hide Validate, Agrees, PagesShaped, Handled, Booted;
    assert (front + [e])[..|front|] == front;
  }

  /** Whatever was assigned, written or burned before, a reboot leaves the default assignments in force, in RAM page 3
    and in the flash image of page 3. */
  lemma RebootRestoresTheDefaults(board: Board, defaults: seq<Request>, p: Pages, events: seq<Event>)
    requires WellFormed(board) && Validate(board, defaults).Ok? && PagesShaped(p)
    ensures var v := Run(board, defaults, p, events + [Rebooted]);
            var image := StoredImage.Decode(v.pages.slots[PIN_PAGE].rawImage);
            && v.assignments == Validate(board, defaults).value
            && image.Ok?
            && image.value.payload == v.pages.ram[PIN_PAGE]
            && Deserialized(board, image.value.payload) == Ok(Validate(board, defaults).value)
  {
    hide Validate, Serialized, Deserialized, Handled, Run, ConfigStore.Burned, StoredImage.Decode, ConfigStore.SlotOk;
    OneMore(board, defaults, p, events, Rebooted);
    var before := Run(board, defaults, p, events);
    ValidateIsIdempotent(board, defaults);
    var page := PinPage(board, Validate(board, defaults).value);
    ConfigStore.BurnedIsRecoverable(before.pages.slots[PIN_PAGE], PIN_PAGE, page);
  }

  /** Burning page 3 does not carry the assignments over a reboot: after any run they survive it if and only if they are
    the default ones. */
  lemma BurnedPinsSurviveExactly(board: Board, defaults: seq<Request>, p: Pages, events: seq<Event>)
    requires WellFormed(board) && Validate(board, defaults).Ok? && PagesShaped(p)
    ensures var v := Run(board, defaults, p, events);
            var burned := events + [Commanded(BurnPage(Some(PIN_PAGE)))];
            && Run(board, defaults, p, burned).assignments == v.assignments
            && (Run(board, defaults, p, burned + [Rebooted]).assignments == v.assignments
                <==> v.assignments == Validate(board, defaults).value)
  {
    hide Validate, Serialized, Deserialized, Run, ConfigStore.Burned;
    OneMore(board, defaults, p, events, Commanded(BurnPage(Some(PIN_PAGE))));
    RebootRestoresTheDefaults(board, defaults, p, events + [Commanded(BurnPage(Some(PIN_PAGE)))]);
  }

  /** Two pins that can each read the manifold pressure sensor. */
  const TWO_PINS: Board := [
    PinCapability([0x41], [], false, {AnalogInput}, [PinRoute(AnalogInput, None)]),
    PinCapability([0x42], [], false, {AnalogInput}, [PinRoute(AnalogInput, None)])]

  const FIRST_PIN: seq<Request> := [Request(MapSensor, [0x41])]
  const SECOND_PIN: seq<Request> := [Request(MapSensor, [0x42])]

  lemma OneRequest(board: Board, r: Request)
    requires Admissible(board, r)
    ensures Validate(board, [r]) == Ok([ResolvedFrom(board, r)])
  {
    hide Validate, Admissible, ResolvedFrom;
    ValidateMeaning(board, [r]);
    assert ConflictFree(board, [r]);
    assert Validate(board, [r]).value == [ResolvedFrom(board, r)];
  }

  lemma OnTwoPins()
    ensures WellFormed(TWO_PINS)
    ensures Validate(TWO_PINS, FIRST_PIN) == Ok([Resolved(MapSensor, [0x41], [], AnalogInput)])
    ensures Validate(TWO_PINS, SECOND_PIN) == Ok([Resolved(MapSensor, [0x42], [], AnalogInput)])
  {
    hide Validate;
    assert TWO_PINS[0].pinId[0] == 0x41 && TWO_PINS[1].pinId[0] == 0x42;
    assert TWO_PINS[1..] == [TWO_PINS[1]];
    assert FindPin(TWO_PINS[1..], [0x42]) == Some(TWO_PINS[1]);
    assert RouteFor(TWO_PINS[0].routes, AnalogInput) == Some(PinRoute(AnalogInput, None));
    OneRequest(TWO_PINS, FIRST_PIN[0]);
    OneRequest(TWO_PINS, SECOND_PIN[0]);
    assert FIRST_PIN == [FIRST_PIN[0]] && SECOND_PIN == [SECOND_PIN[0]];
  }

  lemma StartOnTwoPins(p: Pages)
    requires PagesShaped(p) && WellFormed(TWO_PINS)
    requires Validate(TWO_PINS, FIRST_PIN) == Ok([Resolved(MapSensor, [0x41], [], AnalogInput)])
    ensures Run(TWO_PINS, FIRST_PIN, p, []).assignments == [Resolved(MapSensor, [0x41], [], AnalogInput)]
  {
    hide Validate, Serialized, Deserialized, ConfigStore.Burned;
  }

  /** A run in which an assignment is accepted and burned, and the reboot loses it. */
  lemma RebootForgetsABurnedAssignment(p: Pages)
    requires PagesShaped(p)
    ensures WellFormed(TWO_PINS) && Validate(TWO_PINS, FIRST_PIN).Ok?
    ensures var chosen := [Commanded(PinAssign(Some(SECOND_PIN)))];
            var burned := chosen + [Commanded(BurnPage(Some(PIN_PAGE)))];
            && Handled(TWO_PINS, Run(TWO_PINS, FIRST_PIN, p, []), PinAssign(Some(SECOND_PIN))).0.Ack?
            && Run(TWO_PINS, FIRST_PIN, p, burned).assignments == [Resolved(MapSensor, [0x42], [], AnalogInput)]
            && Run(TWO_PINS, FIRST_PIN, p, burned + [Rebooted]).assignments
               == [Resolved(MapSensor, [0x41], [], AnalogInput)]
  {
    hide Validate, Merged, Serialized, Deserialized, Run, ConfigStore.Burned, ConfigStore.NeedsBurn, TWO_PINS;
    OnTwoPins();
    StartOnTwoPins(p);
    MergedToSecond(Run(TWO_PINS, FIRST_PIN, p, []).assignments);
    var chosen := [Commanded(PinAssign(Some(SECOND_PIN)))];
    OneMore(TWO_PINS, FIRST_PIN, p, [], chosen[0]);
    assert [] + chosen == chosen;
    BurnedPinsSurviveExactly(TWO_PINS, FIRST_PIN, p, chosen);
    RebootRestoresTheDefaults(TWO_PINS, FIRST_PIN, p, chosen + [Commanded(BurnPage(Some(PIN_PAGE)))]);
  }

  lemma MergedToSecond(assignments: seq<Resolved>)
    requires assignments == [Resolved(MapSensor, [0x41], [], AnalogInput)]
    ensures Merged(RequestsOf(assignments), SECOND_PIN) == SECOND_PIN
  {
    assert RequestsOf(assignments) == FIRST_PIN;
    assert SECOND_PIN[..0] == [];
    assert Merged(FIRST_PIN, []) == FIRST_PIN;
    assert FIRST_PIN[0 := SECOND_PIN[0]] == SECOND_PIN;
  }
}
