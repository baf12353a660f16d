/** The page store behind every component (src/storage/ephemeral.rs): a map from page id to bytes. */
module PageStores {
  import opened ByteCodec

  /** What reading a page returns; a page never written reads as 8192 zero bytes. */
  function PageBytes(pages: map<nat, Bytes>, id: nat): Bytes {
    if id in pages then pages[id] else Zeros(8192)
  }

  class PageStore {
    var pages: map<nat, Bytes>

    constructor ()
      ensures pages == map[]
    {
      pages := map[];
    }

    method ReadPage(id: nat) returns (data: Bytes)
      ensures data == PageBytes(pages, id)
    {
      data := if id in pages then pages[id] else Zeros(8192);
    }

    method WritePage(id: nat, data: Bytes)
      modifies this
      ensures pages == old(pages)[id := data]
    {
      pages := pages[id := data];
    }
  }
}
