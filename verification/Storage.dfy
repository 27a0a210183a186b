/** Pages in memory and the file they come from. */
module Storage {

  const PAGE_BYTES: nat := 4096

  type Bytes = seq<bv8>

  function ZeroBytes(): (r: Bytes)
    ensures |r| == 4096 && forall i | 0 <= i < |r| :: r[i] == 0
  {
    seq(PAGE_BYTES, _ => 0)
  }

  /** A page in memory. Whoever holds it may write to it, which marks it dirty. */
  class Page {
    const id: int
    var data: Bytes
    var dirty: bool

    constructor (id: int, data: Bytes)
      ensures this.id == id && this.data == data && !dirty
    {
      this.id, this.data, this.dirty := id, data, false;
    }

    method Write(data': Bytes)
      modifies this
      ensures data == data' && dirty
    {
      data, dirty := data', true;
    }
  }

  /** The file, a growing sequence of pages. */
  class PageManager {
    var disk: seq<Bytes>

    /** A new file starts with its header page, which opens with the letters AKTS. */
    constructor ()
      ensures disk == [ZeroBytes()[0 := 65][1 := 75][2 := 84][3 := 83]]
    {
      disk := [ZeroBytes()[0 := 65][1 := 75][2 := 84][3 := 83]];
    }

    method AllocatePage() returns (id: int)
      modifies `disk
      ensures id == |old(disk)| && disk == old(disk) + [ZeroBytes()]
      ensures |disk[id]| == 4096 && forall i | 0 <= i < 4096 :: disk[id][i] == 0
    {
      id := |disk|;
      disk := disk + [ZeroBytes()];
    }

    /** Null for a page that does not exist in the file. */
    method ReadPage(id: int) returns (page: Page?)
      ensures page == null <==> !(0 <= id < |disk|)
      ensures page != null ==> fresh(page) && page.id == id && page.data == disk[id] && !page.dirty
    {
      if id < 0 || id >= |disk| {
        return null;
      }
      page := new Page(id, disk[id]);
    }

    method WritePage(page: Page)
      requires 0 <= page.id < |disk|
      modifies `disk, page`dirty
      ensures disk == if old(page.dirty) then old(disk)[page.id := page.data] else old(disk)
      ensures !page.dirty
    {
      if !page.dirty {
        return;
      }
      disk := disk[page.id := page.data];
      page.dirty := false;
    }
  }
}
