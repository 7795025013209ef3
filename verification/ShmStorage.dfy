/** The shared-memory store as the object that updates the mapped memory in place. */
module ShmStorage {
  import opened ShmImage

  /** The mapped region; it outlives every ShmStorage object attached to it. */
  class SharedMemory {
    var size: nat
    const index: array<nat>
    const table: array<ShmRecord>

    constructor (n: nat)
      ensures fresh(index) && fresh(table) && index.Length == table.Length == n
      ensures Image() == Zeroed(n)
    {
      size := 0;
      index := new nat[n](_ => 0);
      table := new ShmRecord[n](_ => ZERO_RECORD);
      new;
      assert index[..] == Zeroed(n).index;
      assert table[..] == Zeroed(n).table;
    }

    ghost function Image(): Shm
      reads this, index, table
    {
      Shm(size, index[..], table[..])
    }

    /** memset over the index and the table after the size word is cleared. */
    method Reset()
      requires index.Length == table.Length
      modifies this`size, index, table
      ensures Image() == Zeroed(table.Length)
    {
      size := 0;
      for i := 0 to index.Length
        invariant size == 0
        invariant forall j :: 0 <= j < i ==> index[j] == 0
      {
        index[i] := 0;
      }
      for i := 0 to table.Length
        invariant size == 0
        invariant forall j :: 0 <= j < index.Length ==> index[j] == 0
        invariant forall j :: 0 <= j < i ==> table[j] == ZERO_RECORD
      {
        table[i] := ZERO_RECORD;
      }
    }
  }

  class ShmStorage {
    const mem: SharedMemory
    var inBounds: bool         // whether the scan stayed inside the table

    ghost predicate Valid()
      reads mem, mem.index, mem.table
    {
      mem.index.Length == mem.table.Length && Rep(mem.Image())
    }

    /** Attach to memory left by an earlier process, whatever it holds.  The line printed about a refused entry
        reads the record it names; if that lies beyond the table nothing is promised. */
    constructor (mem: SharedMemory)
      requires mem.index.Length == mem.table.Length
      modifies mem`size, mem.index, mem.table
      ensures this.mem == mem
      ensures inBounds <==> ScanInBounds(old(mem.Image()))
      ensures inBounds ==> mem.Image() == AttachImage(old(mem.Image()))
    {
      this.mem, inBounds := mem, true;
      new;
      ghost var image := mem.Image();
      var n := mem.table.Length;
      var needReset := false;
      var i := 0;
      while i < n && !needReset
        invariant 0 <= i <= n
        invariant mem.Image() == image
        invariant forall j :: 0 <= j < i ==> ScanAccepts(image, j)
        invariant needReset ==> i < n && !ScanAccepts(image, i) && (inBounds <==> image.index[i] < n)
        invariant !needReset ==> inBounds
        decreases n - i, !needReset
      {
        if i < mem.size {
          if mem.index[i] >= n || !mem.table[mem.index[i]].valid {
            inBounds := mem.index[i] < n;
            needReset := true;
          }
        } else {
          if mem.index[i] != 0 || mem.table[mem.index[i]].valid {
            inBounds := mem.index[i] < n;
            needReset := true;
          }
        }
        if !needReset {
          i := i + 1;
        }
      }
      assert needReset ==> !ScanOk(image) && (ScanInBounds(image) <==> image.index[i] < n);
      if needReset && inBounds {
        mem.Reset();
      }
    }

    /** Insert or update. */
    method Set(key: nat, item: MyMDItem)
      requires Valid() && key < mem.table.Length
      modifies mem`size, mem.index, mem.table
      ensures Valid()
      ensures mem.table[key] == ShmRecord(item, true)
      ensures Abs(mem.Image()) == Put(old(Abs(mem.Image())), key, item)
      ensures mem.Image().table == old(mem.Image()).table[key := ShmRecord(item, true)]
    {
      ghost var image := mem.Image();
      SetRefines(image, key, item);
      if !mem.table[key].valid {
        mem.index[mem.size] := key;
        mem.size := mem.size + 1;
      }
      mem.table[key] := mem.table[key].(valid := true);
      mem.table[key] := mem.table[key].(item := item);
      assert mem.Image() == SetImage(image, key, item);
    }

    method Get(key: nat) returns (found: bool, item: MyMDItem)
      requires Valid() && key < mem.table.Length
      ensures found <==> key in Abs(mem.Image()).items
      ensures found ==> item == Abs(mem.Image()).items[key]
    {
      if mem.table[key].valid {
        return true, mem.table[key].item;
      }
      return false, ZERO_ITEM;
    }

    /** The slot a pointer would address, or -1 for nullptr. */
    method GetPtr(key: nat) returns (slot: int)
      requires Valid() && key < mem.table.Length
      ensures key in Abs(mem.Image()).items ==> slot == key
      ensures key !in Abs(mem.Image()).items ==> slot == -1
    {
      if mem.table[key].valid {
        return key;
      }
      return -1;
    }

    method Clear()
      requires Valid()
      modifies mem`size, mem.index, mem.table
      ensures Valid() && Abs(mem.Image()) == EMPTY_MAP
    {
      mem.Reset();
      ZeroedRep(mem.table.Length);
    }

    method Size() returns (n: nat)
      requires Valid()
      ensures n == |Abs(mem.Image()).order| <= mem.table.Length
    {
      n := mem.size;
    }

    /** forEach with a reader: the records it is called with, in order. */
    method ForEach() returns (visited: seq<MyMDItem>)
      requires Valid()
      ensures var o := Abs(mem.Image());
              |visited| == |o.order|
              && forall j :: 0 <= j < |visited| ==> o.order[j] in o.items && visited[j] == o.items[o.order[j]]
    {
      visited := [];
      ghost var image := mem.Image();
      var i := 0;
      while i < mem.size
        invariant 0 <= i <= mem.size
        invariant visited + Visits(image, i) == Visits(image, 0)
      {
        if mem.table[mem.index[i]].valid {
          visited := visited + [mem.table[mem.index[i]].item];
        }
        i := i + 1;
      }
      assert visited == Visits(image, 0);
      VisitsAll(image);
    }
  }
}
