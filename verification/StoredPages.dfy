/** The RAM pages and flash slots of the store as one value, for specifications of what commands do to them. */
module StoredPages {
  import opened Bytes
  import ConfigStore

  datatype Pages = Pages(ram: seq<seq<byte>>, slots: seq<ConfigStore.FlashPageSlot>)

  predicate PagesShaped(p: Pages) {
    |p.ram| == |p.slots| == ConfigStore.PAGES
    && forall i :: 0 <= i < |p.ram| ==> |p.ram[i]| == ConfigStore.PAGE_LENGTHS[i]
  }

  function WithRam(p: Pages, pageId: u8, data: seq<byte>): (q: Pages)
    requires PagesShaped(p) && pageId < ConfigStore.PAGES && |data| == ConfigStore.PAGE_LENGTHS[pageId]
    ensures PagesShaped(q)
  {
    p.(ram := p.ram[pageId := data])
  }

  function WithBurned(p: Pages, pageId: u8): (q: Pages)
    requires PagesShaped(p) && pageId < ConfigStore.PAGES
    ensures PagesShaped(q)
  {
    p.(slots := p.slots[pageId := ConfigStore.Burned(p.slots[pageId], pageId, p.ram[pageId])])
  }
}
