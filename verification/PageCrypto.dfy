/** The nonce counter of encrypted page reads and its record in the last 16 bytes of page 9: src/transport.rs and
  src/crypto.rs. The key generation is the same after every boot, so a nonce is its counter. */
module PageCrypto {
  import opened Bytes
  import opened StoredPages
  import ConfigStore

  const NONCE_PAGE: u8 := 9
  const STRIDE: nat := 1024
  const RECORD_LEN: nat := 16
  const MAGIC: seq<byte> := [0x53, 0x54, 0x4E, 0x43]
  const VERSION: byte := 1

  // ---- the record ----

  function U64Bytes(n: u64): (s: seq<byte>)
    ensures |s| == 8
  {
    U32Bytes(n / 0x1_0000_0000) + U32Bytes(n % 0x1_0000_0000)
  }

  function U64Val(s: seq<byte>): u64
    requires |s| == 8
  {
    U32Val(s[0], s[1], s[2], s[3]) * 0x1_0000_0000 + U32Val(s[4], s[5], s[6], s[7])
  }

  lemma U64RoundTrip(n: u64)
    ensures U64Val(U64Bytes(n)) == n
  {
    hide U32Bytes, U32Val;
    U32RoundTrip(n / 0x1_0000_0000);
    U32RoundTrip(n % 0x1_0000_0000);
  }

  function Record(page: seq<byte>): Option<u64> {
    if |page| < RECORD_LEN then None
    else
      var record := page[|page| - RECORD_LEN..];
      if record[..4] != MAGIC || record[4] != VERSION then None else Some(U64Val(record[8..16]))
  }

  function WithRecord(page: seq<byte>, counter: u64): (s: seq<byte>)
    requires |page| >= RECORD_LEN
    ensures |s| == |page|
  {
    page[..|page| - RECORD_LEN] + MAGIC + [VERSION, 0, 0, 0] + U64Bytes(counter)
  }

  lemma RecordOfWithRecord(page: seq<byte>, counter: u64)
    requires |page| >= RECORD_LEN
    ensures Record(WithRecord(page, counter)) == Some(counter)
  {
    hide U64Bytes, U64Val;
    U64RoundTrip(counter);
    var record := WithRecord(page, counter)[|page| - RECORD_LEN..];
    assert record == MAGIC + [VERSION, 0, 0, 0] + U64Bytes(counter);
    assert record[8..16] == U64Bytes(counter);
  }

  /** `read_persisted_page_crypto_counter`: from flash, or from RAM when the flash slot holds no valid image. */
  function Persisted(p: Pages): Option<u64>
    requires PagesShaped(p)
  {
    match p.slots[NONCE_PAGE].committed
    case Some(image) => Record(image.payload)
    case None => Record(p.ram[NONCE_PAGE])
  }

  /** `persist_page_crypto_counter`: into RAM and then into flash. */
  function WithPersisted(p: Pages, counter: u64): (q: Pages)
    requires PagesShaped(p)
    ensures PagesShaped(q)
  {
    WithBurned(WithRam(p, NONCE_PAGE, WithRecord(p.ram[NONCE_PAGE], counter)), NONCE_PAGE)
  }

  lemma PersistedIsRead(p: Pages, counter: u64)
    requires PagesShaped(p)
    ensures Persisted(WithPersisted(p, counter)) == Some(counter)
  {
    hide WithRecord, Record, ConfigStore.CurrentHeader, ConfigStore.CurrentImage;
    RecordOfWithRecord(p.ram[NONCE_PAGE], counter);
  }

  // ---- booting and reading ----

  datatype Crypto = Crypto(counter: u64, nextPersist: u64, pages: Pages)

  /** The seed comes from the first eight bytes of the derived key. */
  function BootCounter(seed: u64, p: Pages): u64
    requires PagesShaped(p)
  {
    match Persisted(p) case Some(c) => SaturatingAdd(c, STRIDE, U64_MAX) case None => seed
  }

  function Booted(seed: u64, p: Pages): (c: Crypto)
    requires PagesShaped(p)
    ensures PagesShaped(c.pages)
  {
    var counter := BootCounter(seed, p);
    Crypto(counter, SaturatingAdd(counter, STRIDE, U64_MAX), WithPersisted(p, counter))
  }

  /** The state after reading a page; `encrypts` is the verdict of the cipher, which has taken its nonce by then. */
  function AfterRead(c: Crypto, pageId: u8, encrypts: bool): (d: Crypto)
    requires PagesShaped(c.pages)
    ensures PagesShaped(d.pages)
  {
    if pageId >= ConfigStore.PAGES then c
    else
      var next := (c.counter + 1) % 0x1_0000_0000_0000_0000;
      if encrypts && next >= c.nextPersist
      then Crypto(next, SaturatingAdd(next, STRIDE, U64_MAX), WithPersisted(c.pages, next))
      else c.(counter := next)
  }

  /** The nonces that leave the firmware in the answer. */
  function Emitted(c: Crypto, pageId: u8, encrypts: bool): seq<u64> {
    if pageId < ConfigStore.PAGES && encrypts then [c.counter] else []
  }

  class PageCrypto {
    const store: ConfigStore.ConfigStore
    var nonceCounter: u64
    var nextPersistCounter: u64

    ghost function View(): Crypto
      reads this, store
    {
      Crypto(nonceCounter, nextPersistCounter, Pages(store.ramPages, store.flashSlots))
    }

    constructor (seed: u64, store: ConfigStore.ConfigStore)
      requires store.Valid()
      modifies store
      ensures this.store == store && store.Valid()
      ensures View() == Booted(seed, old(Pages(store.ramPages, store.flashSlots)))
    {
      hide WithRecord, Record, ConfigStore.Burned, ConfigStore.SlotOk;
      var page := match store.flashSlots[NONCE_PAGE].committed
                  case Some(image) => image.payload
                  case None => store.ramPages[NONCE_PAGE];
      var persisted := Record(page);
      var counter := seed;
      if persisted.Some? {
        counter := SaturatingAdd(persisted.value, STRIDE, U64_MAX);
      }
      PersistTo(store, counter);
      this.store, nonceCounter := store, counter;
      nextPersistCounter := SaturatingAdd(counter, STRIDE, U64_MAX);
    }

    static method PersistTo(store: ConfigStore.ConfigStore, counter: u64)
      requires store.Valid()
      modifies store
      ensures store.Valid()
      ensures Pages(store.ramPages, store.flashSlots)
           == WithPersisted(old(Pages(store.ramPages, store.flashSlots)), counter)
    {
      hide WithRecord, ConfigStore.Burned, ConfigStore.SlotOk;
      var written := store.WritePage(NONCE_PAGE, WithRecord(store.ramPages[NONCE_PAGE], counter));
      var burned := store.BurnPage(NONCE_PAGE);
    }

    /** ReadPage: the page goes out under the counter as its nonce. */
    method ReadPage(pageId: u8, encrypts: bool) returns (emitted: seq<u64>)
      requires store.Valid()
      modifies this, store
      ensures store.Valid()
      ensures emitted == Emitted(old(View()), pageId, encrypts)
      ensures View() == AfterRead(old(View()), pageId, encrypts)
    {
      hide WithPersisted, ConfigStore.SlotOk;
      if pageId >= |store.ramPages| {
        return [];
      }
      var counter := nonceCounter;
      nonceCounter := (nonceCounter + 1) % 0x1_0000_0000_0000_0000;
      if !encrypts {
        return [];
      }
      if nonceCounter >= nextPersistCounter {
        PersistTo(store, nonceCounter);
        nextPersistCounter := SaturatingAdd(nonceCounter, STRIDE, U64_MAX);
      }
      emitted := [counter];
    }
  }

  // ---- runs ----

  /** Host writes and burns, damage to a slot and power loss come between reads. */
  datatype Event =
    | Read(pageId: u8, encrypts: bool)
    | HostWrites(pageId: u8, data: seq<byte>)
    | HostBurns(pageId: u8)
    | Damaged(pageId: u8, raw: seq<byte>)
    | Rebooted

  function AfterHost(p: Pages, e: Event): (q: Pages)
    requires PagesShaped(p)
    ensures PagesShaped(q)
  {
    match e
    case HostWrites(pageId, data) =>
      if pageId < ConfigStore.PAGES && |data| == ConfigStore.PAGE_LENGTHS[pageId] then WithRam(p, pageId, data) else p
    case HostBurns(pageId) => if pageId < ConfigStore.PAGES then WithBurned(p, pageId) else p
    case Damaged(pageId, raw) =>
      if pageId >= ConfigStore.PAGES then p
      else p.(slots := p.slots[pageId := ConfigStore.Replaced(p.slots[pageId], raw)])
    case _ => p
  }

  function AfterEvent(seed: u64, c: Crypto, e: Event): (d: Crypto)
    requires PagesShaped(c.pages)
    ensures PagesShaped(d.pages)
  {
    match e
    case Rebooted => Booted(seed, c.pages)
    case Read(pageId, encrypts) => AfterRead(c, pageId, encrypts)
    case _ => c.(pages := AfterHost(c.pages, e))
  }

  function EmittedBy(c: Crypto, e: Event): seq<u64> {
    match e case Read(pageId, encrypts) => Emitted(c, pageId, encrypts) case _ => []
  }

  function After(seed: u64, p: Pages, events: seq<Event>): (c: Crypto)
    requires PagesShaped(p)
    ensures PagesShaped(c.pages)
  {
    if events == [] then Booted(seed, p)
    else AfterEvent(seed, After(seed, p, events[..|events| - 1]), events[|events| - 1])
  }

  function Nonces(seed: u64, p: Pages, events: seq<Event>): seq<u64>
    requires PagesShaped(p)
  {
    if events == [] then []
    else
      var front := events[..|events| - 1];
      Nonces(seed, p, front) + EmittedBy(After(seed, p, front), events[|events| - 1])
  }

  ghost predicate Increasing(s: seq<int>) {
    forall i, j :: 0 <= i < j < |s| ==> s[i] < s[j]
  }

  /** No write, burn or damage changes the record a boot would read. */
  ghost predicate RecordIsLeftAlone(seed: u64, p: Pages, events: seq<Event>)
    requires PagesShaped(p)
  {
    forall n :: 0 <= n < |events| ==>
      var c := After(seed, p, events[..n]);
      Persisted(AfterHost(c.pages, events[n])) == Persisted(c.pages)
  }

  /** A read of a page there is takes the counter as its nonce, whether or not the cipher then works. */
  predicate TakesNonce(e: Event) {
    e.Read? && e.pageId < ConfigStore.PAGES
  }

  /** No read takes the largest counter, after which it would wrap to zero. */
  ghost predicate NeverAtTheTop(seed: u64, p: Pages, events: seq<Event>)
    requires PagesShaped(p)
  {
    forall n :: 0 <= n < |events| && TakesNonce(events[n]) ==> After(seed, p, events[..n]).counter < U64_MAX
  }

  /** The stored record lies at most a stride behind, and every nonce used is below both the counter and the counter
    of the next boot. */
  ghost predicate Ahead(c: Crypto, nonces: seq<int>)
    requires PagesShaped(c.pages)
  {
    && Persisted(c.pages).Some?
    && c.nextPersist == Min(Persisted(c.pages).value + STRIDE, U64_MAX)
    && Persisted(c.pages).value <= c.counter
    && Increasing(nonces)
    && forall i :: 0 <= i < |nonces| ==>
         nonces[i] < c.counter && nonces[i] < Persisted(c.pages).value + STRIDE && nonces[i] < U64_MAX
  }

  lemma StepAhead(seed: u64, c: Crypto, e: Event, nonces: seq<int>)
    requires PagesShaped(c.pages) && Ahead(c, nonces)
    requires TakesNonce(e) ==> c.counter < U64_MAX
    requires Persisted(AfterHost(c.pages, e)) == Persisted(c.pages)
    ensures Ahead(AfterEvent(seed, c, e), nonces + EmittedBy(c, e))
  {
    hide Persisted, WithPersisted, AfterHost, PagesShaped;
    match e {
      case Rebooted =>
        PersistedIsRead(c.pages, BootCounter(seed, c.pages));
        assert nonces + [] == nonces;
      case Read(pageId, encrypts) =>
        if TakesNonce(e) {
          PersistedIsRead(c.pages, c.counter + 1);
        }
        if pageId >= ConfigStore.PAGES || !encrypts {
          assert nonces + [] == nonces;
        }
      case _ =>
        assert nonces + [] == nonces;
    }
  }

  lemma FrontOf(seed: u64, p: Pages, events: seq<Event>)
    requires PagesShaped(p) && events != []
    ensures var front := events[..|events| - 1];
            && (RecordIsLeftAlone(seed, p, events) ==> RecordIsLeftAlone(seed, p, front))
            && (NeverAtTheTop(seed, p, events) ==> NeverAtTheTop(seed, p, front))
  {
    hide Persisted, AfterHost, PagesShaped, After;
    var front := events[..|events| - 1];
    assert forall n :: 0 <= n < |front| ==> front[..n] == events[..n] && front[n] == events[n];
  }

  lemma {:induction false} StaysAhead(seed: u64, p: Pages, events: seq<Event>)
    requires PagesShaped(p) && RecordIsLeftAlone(seed, p, events) && NeverAtTheTop(seed, p, events)
    ensures Ahead(After(seed, p, events), Nonces(seed, p, events))
    decreases |events|
  {
    hide Persisted, WithPersisted, AfterHost, PagesShaped, AfterEvent, EmittedBy, BootCounter;
    if events == [] {
      PersistedIsRead(p, BootCounter(seed, p));
    } else {
      var front := events[..|events| - 1];
      FrontOf(seed, p, events);
      StaysAhead(seed, p, front);
      StepAhead(seed, After(seed, p, front), events[|events| - 1], Nonces(seed, p, front));
    }
  }

  /** As long as nothing overwrites the record and no read takes the largest counter, no nonce is ever used twice:
    over any number of boots, reads and failed encryptions they strictly increase. */
  lemma NoncesIncrease(seed: u64, p: Pages, events: seq<Event>)
    requires PagesShaped(p) && RecordIsLeftAlone(seed, p, events) && NeverAtTheTop(seed, p, events)
    ensures Increasing(Nonces(seed, p, events))
  {
    hide Persisted, PagesShaped, After, Nonces;
    StaysAhead(seed, p, events);
  }

  // ---- how far the counter can get ----

  /** What an event can add to the counter: a read one, a reboot a stride, the host nothing. */
  function CostOf(e: Event): nat {
    if e.Rebooted? then STRIDE else if TakesNonce(e) then 1 else 0
  }

  function Cost(events: seq<Event>): nat {
    if events == [] then 0 else Cost(events[..|events| - 1]) + CostOf(events[|events| - 1])
  }

  lemma StepCost(seed: u64, c: Crypto, e: Event, nonces: seq<int>)
    requires PagesShaped(c.pages) && Ahead(c, nonces) && c.counter + CostOf(e) <= U64_MAX
    ensures AfterEvent(seed, c, e).counter <= c.counter + CostOf(e)
    ensures TakesNonce(e) ==> c.counter < U64_MAX
  {
    hide Persisted, WithPersisted, PagesShaped;
  }

  lemma {:induction false} CounterIsPaidFor(seed: u64, p: Pages, events: seq<Event>)
    requires PagesShaped(p) && RecordIsLeftAlone(seed, p, events)
    requires BootCounter(seed, p) + Cost(events) <= U64_MAX
    ensures NeverAtTheTop(seed, p, events)
    ensures After(seed, p, events).counter <= BootCounter(seed, p) + Cost(events)
    decreases |events|
  {
    hide Persisted, WithPersisted, AfterHost, PagesShaped, RecordIsLeftAlone;
    hide BootCounter, AfterEvent, CostOf, Nonces, Ahead;
    if events == [] {
    } else {
      var front, last := events[..|events| - 1], events[|events| - 1];
      FrontOf(seed, p, events);
      CounterIsPaidFor(seed, p, front);
      StaysAhead(seed, p, front);
      StepCost(seed, After(seed, p, front), last, Nonces(seed, p, front));
      assert forall n :: 0 <= n < |front| ==> front[..n] == events[..n] && front[n] == events[n];
    }
  }

  /** From any first counter there is room for 1024 per reboot and one per read up to the largest counter. */
  lemma NoncesIncreaseWithinBudget(seed: u64, p: Pages, events: seq<Event>)
    requires PagesShaped(p) && RecordIsLeftAlone(seed, p, events)
    requires BootCounter(seed, p) + Cost(events) <= U64_MAX
    ensures Increasing(Nonces(seed, p, events))
  {
    hide Persisted, PagesShaped, After, Nonces, Cost, BootCounter;
    CounterIsPaidFor(seed, p, events);
    NoncesIncrease(seed, p, events);
  }

  // ---- exactly when a nonce comes back ----

  lemma {:induction false} NoncesOfPrefix(seed: u64, p: Pages, events: seq<Event>, n: nat)
    requires PagesShaped(p) && n <= |events|
    ensures Nonces(seed, p, events[..n]) <= Nonces(seed, p, events)
    decreases |events|
  {
    hide PagesShaped, After, EmittedBy;
    if n == |events| {
      assert events[..n] == events;
    } else {
      var front := events[..|events| - 1];
      assert front[..n] == events[..n];
      NoncesOfPrefix(seed, p, front, n);
    }
  }

  predicate CipherWorks(events: seq<Event>) {
    forall n :: 0 <= n < |events| && events[n].Read? ==> events[n].encrypts
  }

  /** While the record is left alone and the cipher works, the nonces strictly increase if and only if no read but the
    last takes the largest counter, where a boot saturates and a read wraps. */
  lemma OverflowExactly(seed: u64, p: Pages, events: seq<Event>)
    requires PagesShaped(p) && RecordIsLeftAlone(seed, p, events) && CipherWorks(events)
    ensures Increasing(Nonces(seed, p, events))
       <==> forall n, m :: 0 <= n < m < |events| && TakesNonce(events[n]) && TakesNonce(events[m])
                           ==> After(seed, p, events[..n]).counter < U64_MAX
  {
    hide Persisted, AfterHost, PagesShaped, AfterEvent;
    if forall n, m :: 0 <= n < m < |events| && TakesNonce(events[n]) && TakesNonce(events[m])
                      ==> After(seed, p, events[..n]).counter < U64_MAX {
      OnlyTheLastAtTheTop(seed, p, events);
    } else {
      var n, m :| 0 <= n < m < |events| && TakesNonce(events[n]) && TakesNonce(events[m])
                  && After(seed, p, events[..n]).counter == U64_MAX;
      TopThenAnother(seed, p, events, n, m);
    }
  }

  lemma {:induction false} OnlyTheLastAtTheTop(seed: u64, p: Pages, events: seq<Event>)
    requires PagesShaped(p) && RecordIsLeftAlone(seed, p, events)
    requires forall n, m :: 0 <= n < m < |events| && TakesNonce(events[n]) && TakesNonce(events[m])
                            ==> After(seed, p, events[..n]).counter < U64_MAX
    ensures Increasing(Nonces(seed, p, events))
    decreases |events|
  {
    hide Persisted, AfterHost, PagesShaped, AfterEvent, After;
    if events == [] {
    } else {
      var front, last := events[..|events| - 1], events[|events| - 1];
      FrontOf(seed, p, events);
      assert forall n :: 0 <= n < |front| ==> front[..n] == events[..n] && front[n] == events[n];
      if TakesNonce(last) {
        StaysAhead(seed, p, front);
      } else {
        OnlyTheLastAtTheTop(seed, p, front);
      }
    }
  }

  lemma TopThenAnother(seed: u64, p: Pages, events: seq<Event>, n: nat, m: nat)
    requires PagesShaped(p) && CipherWorks(events)
    requires n < m < |events| && TakesNonce(events[n]) && TakesNonce(events[m])
    requires After(seed, p, events[..n]).counter == U64_MAX
    ensures !Increasing(Nonces(seed, p, events))
  {
    hide PagesShaped, After, AfterEvent, Nonces, EmittedBy, TakesNonce;
    var nonces := Nonces(seed, p, events);
    var upToN, upToM := Nonces(seed, p, events[..n]), Nonces(seed, p, events[..m]);
    TakenIsEmitted(seed, p, events, n);
    TakenIsEmitted(seed, p, events, m);
    assert events[..m][..n + 1] == events[..n + 1];
    NoncesOfPrefix(seed, p, events[..m], n + 1);
    NoncesOfPrefix(seed, p, events, m + 1);
    assert nonces[|upToN|] == U64_MAX && |upToN| < |upToM| < |nonces| && nonces[|upToM|] <= U64_MAX;
  }

  lemma TakenIsEmitted(seed: u64, p: Pages, events: seq<Event>, n: nat)
    requires PagesShaped(p) && n < |events| && TakesNonce(events[n]) && CipherWorks(events)
    ensures Nonces(seed, p, events[..n + 1])
         == Nonces(seed, p, events[..n]) + [After(seed, p, events[..n]).counter]
  {
    hide PagesShaped, After, AfterEvent, Nonces;
    assert events[..n + 1] == events[..n] + [events[n]];
    OneMore(seed, p, events[..n], events[n]);
  }

  /** The overflow is real: started on the largest counter, the firmware uses it at every boot, though nothing touches
    the record. */
  lemma OverflowRepeatsANonce(p: Pages)
    requires PagesShaped(p) && Persisted(p) == None
    ensures var events := [Read(0, true), Rebooted, Read(0, true)];
            RecordIsLeftAlone(U64_MAX, p, events) && Nonces(U64_MAX, p, events) == [U64_MAX, U64_MAX]
  {
    hide Persisted, WithPersisted, PagesShaped, After, Nonces;
    var e, r: Event := Read(0, true), Rebooted;
    NothingYet(U64_MAX, p);
    OneMore(U64_MAX, p, [], e);
    OneMore(U64_MAX, p, [e], r);
    OneMore(U64_MAX, p, [e, r], e);
    assert [] + [e] == [e] && [e] + [r] == [e, r] && [e, r] + [e] == [e, r, e];
    PersistedIsRead(p, U64_MAX);
    PersistedIsRead(After(U64_MAX, p, []).pages, 0);
  }

  /** A stored record a boot would go on from without using a nonce up to `last` again. */
  predicate Resumes(record: Option<u64>, seed: u64, last: u64) {
    match record case Some(v) => last < v + STRIDE && last < U64_MAX case None => last < seed
  }

  /** After any run, a reboot and a read use a fresh nonce exactly when the record in the store is less than a stride
    behind the last nonce used, or there is none and the seed is beyond it. */
  lemma RebootIsFreshExactly(seed: u64, p: Pages, events: seq<Event>)
    requires PagesShaped(p)
    requires Increasing(Nonces(seed, p, events)) && Nonces(seed, p, events) != []
    ensures var nonces := Nonces(seed, p, events);
            Increasing(Nonces(seed, p, events + [Rebooted, Read(0, true)]))
            <==> Resumes(Persisted(After(seed, p, events).pages), seed, nonces[|nonces| - 1])
  {
    hide After, WithPersisted, PagesShaped, Persisted, Nonces;
    var nonces := Nonces(seed, p, events);
    var c := After(seed, p, events);
    NoncesOfRebootAndRead(seed, p, events);
    var more := nonces + [BootCounter(seed, c.pages)];
    assert more[|nonces|] == BootCounter(seed, c.pages) && more[|nonces| - 1] == nonces[|nonces| - 1];
  }

  /** What the host may put into page 9: after any run, writing and burning a page leaves the next boot on a fresh nonce
    exactly when the last sixteen bytes of that page are a record less than a stride behind the last nonce used, or are
    no record and the seed is beyond it. */
  lemma BurnedPageIsFreshExactly(seed: u64, p: Pages, events: seq<Event>, page: seq<byte>)
    requires PagesShaped(p) && |page| == ConfigStore.PAGE_LENGTHS[NONCE_PAGE]
    requires Increasing(Nonces(seed, p, events)) && Nonces(seed, p, events) != []
    ensures var nonces := Nonces(seed, p, events);
            Increasing(Nonces(seed, p, events + [HostWrites(NONCE_PAGE, page), HostBurns(NONCE_PAGE)]
                                       + [Rebooted, Read(0, true)]))
            <==> Resumes(Record(page), seed, nonces[|nonces| - 1])
  {
    hide Persisted, Record, WithPersisted, PagesShaped, After, Nonces, Resumes, ConfigStore.Burned;
    var e1, e2: Event := HostWrites(NONCE_PAGE, page), HostBurns(NONCE_PAGE);
    OneMore(seed, p, events, e1);
    OneMore(seed, p, events + [e1], e2);
    assert events + [e1] + [e2] == events + [e1, e2];
    assert Nonces(seed, p, events) + [] + [] == Nonces(seed, p, events);
    BurnedIsPersisted(After(seed, p, events).pages, page);
    RebootIsFreshExactly(seed, p, events + [e1, e2]);
  }

  lemma NoncesOfRebootAndRead(seed: u64, p: Pages, events: seq<Event>)
    requires PagesShaped(p)
    ensures Nonces(seed, p, events + [Rebooted, Read(0, true)])
         == Nonces(seed, p, events) + [BootCounter(seed, After(seed, p, events).pages)]
  {
    hide BootCounter, WithPersisted, PagesShaped;
    var all := events + [Rebooted, Read(0, true)];
    var rebooted := events + [Rebooted];
    assert all[..|all| - 1] == rebooted && rebooted[..|rebooted| - 1] == events;
    assert Nonces(seed, p, rebooted) == Nonces(seed, p, events);
  }

  lemma OneMore(seed: u64, p: Pages, front: seq<Event>, e: Event)
    requires PagesShaped(p)
    ensures After(seed, p, front + [e]) == AfterEvent(seed, After(seed, p, front), e)
    ensures Nonces(seed, p, front + [e]) == Nonces(seed, p, front) + EmittedBy(After(seed, p, front), e)
  {
    hide AfterEvent, EmittedBy, PagesShaped;
    assert (front + [e])[..|front + [e]| - 1] == front;
  }

  lemma BurnedIsPersisted(p: Pages, page: seq<byte>)
    requires PagesShaped(p) && |page| == ConfigStore.PAGE_LENGTHS[NONCE_PAGE]
    ensures Persisted(WithBurned(WithRam(p, NONCE_PAGE, page), NONCE_PAGE)) == Record(page)
  {
    hide Record, ConfigStore.CurrentHeader, ConfigStore.CurrentImage;
  }

  /** A host that overwrites the record makes the firmware repeat itself: page 9 is written with a page that holds no
    record and burned, and the next boot starts over from the seed. */
  lemma OverwritingTheRecordRepeatsANonce(seed: u64, p: Pages, page: seq<byte>)
    requires PagesShaped(p) && Persisted(p) == None
    requires |page| == ConfigStore.PAGE_LENGTHS[NONCE_PAGE] && Record(page) == None
    ensures Nonces(seed, p, [Read(0, true), HostWrites(NONCE_PAGE, page), HostBurns(NONCE_PAGE)]
                            + [Rebooted, Read(0, true)]) == [seed, seed]
  {
    hide Persisted, Record, WithPersisted, PagesShaped, After, Nonces, ConfigStore.Burned;
    var e1, e2, e3: Event := Read(0, true), HostWrites(NONCE_PAGE, page), HostBurns(NONCE_PAGE);
    assert Nonces(seed, p, []) == [] && After(seed, p, []) == Booted(seed, p) by { NothingYet(seed, p); }
    OneMore(seed, p, [], e1);
    OneMore(seed, p, [e1], e2);
    OneMore(seed, p, [e1, e2], e3);
    assert [] + [e1] == [e1] && [e1] + [e2] == [e1, e2] && [e1, e2] + [e3] == [e1, e2, e3];
    var c := After(seed, p, [e1]);
    BurnedIsPersisted(c.pages, page);
    NoncesOfRebootAndRead(seed, p, [e1, e2, e3]);
  }

  lemma NothingYet(seed: u64, p: Pages)
    requires PagesShaped(p)
    ensures After(seed, p, []) == Booted(seed, p) && Nonces(seed, p, []) == []
  {
  }

  // ---- what of page 9 reaches flash ----

  /** The events after which flash slot 9 holds RAM page 9: a burn, but every boot and every read that persists too. */
  predicate CommitsNoncePage(c: Crypto, e: Event) {
    || e.Rebooted?
    || e == HostBurns(NONCE_PAGE)
    || (TakesNonce(e) && e.encrypts && (c.counter + 1) % 0x1_0000_0000_0000_0000 >= c.nextPersist)
  }

  /** What the host has written to page 9 reaches flash without a burn: exactly at those events the slot takes the bytes
    of the RAM page before the record, with the RAM page's own record at a burn and the counter's at the others; damage
    apart, no other event touches it. */
  lemma NoncePageReachesFlashExactly(seed: u64, c: Crypto, e: Event)
    requires PagesShaped(c.pages)
    ensures var d := AfterEvent(seed, c, e);
            var before, after := c.pages.slots[NONCE_PAGE], d.pages.slots[NONCE_PAGE];
            var ram := c.pages.ram[NONCE_PAGE]; var n := |ram| - RECORD_LEN;
            if CommitsNoncePage(c, e) then
              && after.committed.Some?
              && |after.committed.value.payload| == |ram|
              && after.committed.value.payload[..n] == ram[..n]
              && (if e.HostBurns? then after.committed.value.payload == ram
                  else Record(after.committed.value.payload) == Some(d.counter))
              && after.eraseCycles == SaturatingAdd(before.eraseCycles, 1, U32_MAX)
            else if e.Damaged? && e.pageId == NONCE_PAGE then after == ConfigStore.Replaced(before, e.raw)
            else after == before
  {
    hide Persisted, Record, WithRecord, ConfigStore.CurrentImage, ConfigStore.CurrentHeader, ConfigStore.Replaced;
    var ram := c.pages.ram[NONCE_PAGE];
    var counter := AfterEvent(seed, c, e).counter;
    RecordKeepsTheRest(ram, counter);
    RecordOfWithRecord(ram, counter);
  }

  lemma RecordKeepsTheRest(page: seq<byte>, counter: u64)
    requires |page| >= RECORD_LEN
    ensures WithRecord(page, counter)[..|page| - RECORD_LEN] == page[..|page| - RECORD_LEN]
  {
    hide U64Bytes;
  }

  /** The stride is 1024: a boot resumes that far beyond the record, stores that, and stores again after as many
    reads. */
  lemma StrideIs1024(seed: u64, p: Pages, v: u64)
    requires PagesShaped(p) && Persisted(p) == Some(v) && v + 2048 <= U64_MAX
    ensures var c := Booted(seed, p);
            && c.counter == v + 1024 && Persisted(c.pages) == Some(v + 1024) && c.nextPersist == v + 2048
  {
    hide Persisted, WithPersisted, PagesShaped;
    PersistedIsRead(p, v + 1024);
  }

  lemma PersistsExactly(c: Crypto, pageId: u8)
    requires PagesShaped(c.pages) && c.counter < U64_MAX
    ensures var d := AfterRead(c, pageId, true);
            && (pageId < 10 ==> d.counter == c.counter + 1)
            && (pageId >= 10 ==> d == c)
            && (pageId < 10 && c.counter + 1 >= c.nextPersist ==>
                  Persisted(d.pages) == Some(c.counter + 1) && d.nextPersist == Min(c.counter + 1025, U64_MAX))
            && (pageId < 10 && c.counter + 1 < c.nextPersist ==> d.pages == c.pages && d.nextPersist == c.nextPersist)
  {
    hide Persisted, WithPersisted, PagesShaped;
    PersistedIsRead(c.pages, c.counter + 1);
  }

  /** What counts as a record: in the last 16 bytes of a page of at least that length, the magic STNC, the version 1,
    three bytes that are not looked at, and the counter. */
  lemma RecordExactly(page: seq<byte>, v: u64)
    ensures Record(page) == Some(v)
       <==> && |page| >= 16
            && var n := |page| - 16;
               && page[n..n + 4] == [0x53, 0x54, 0x4E, 0x43]
               && page[n + 4] == 1
               && page[n + 8..] == U64Bytes(v)
  {
    hide U64Bytes, U64Val;
    if |page| >= 16 {
      var n := |page| - 16;
      var record := page[n..];
      assert record[..4] == page[n..n + 4] && record[4] == page[n + 4] && record[8..16] == page[n + 8..];
      U64RoundTrip(v);
      U64ValRoundTrip(page[n + 8..]);
    }
  }

  lemma U64ValRoundTrip(s: seq<byte>)
    requires |s| == 8
    ensures U64Bytes(U64Val(s)) == s
  {
    hide U32Bytes, U32Val;
    U32ValRoundTrip(s[0], s[1], s[2], s[3]);
    U32ValRoundTrip(s[4], s[5], s[6], s[7]);
    WordHalves(U32Val(s[0], s[1], s[2], s[3]), U32Val(s[4], s[5], s[6], s[7]));
    assert s == [s[0], s[1], s[2], s[3]] + [s[4], s[5], s[6], s[7]];
  }

  lemma WordHalves(hi: u32, lo: u32)
    ensures (hi * 0x1_0000_0000 + lo) / 0x1_0000_0000 == hi && (hi * 0x1_0000_0000 + lo) % 0x1_0000_0000 == lo
  {
  }

  /** A boot reads the record in flash, and the one in RAM only if the slot holds no valid image. */
  lemma PersistedExactly(p: Pages)
    requires PagesShaped(p)
    ensures Persisted(p)
         == Record(if p.slots[9].committed.Some? then p.slots[9].committed.value.payload else p.ram[9])
  {
  }
}
