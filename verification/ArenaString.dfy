/** ArenaStringPtr without an arena: a pointer that is either the one shared empty
    string, which nobody owns, or a heap string that this field owns. */
module ArenaString {
  import opened WireFormat

  class StringCell {
    var contents: seq<byte>

    constructor (contents: seq<byte>)
      ensures this.contents == contents
    {
      this.contents := contents;
    }
  }

  /** Where std::string objects are made and destroyed. `live` is what has been
      made and not destroyed; deleting anything else is an error. */
  class StringHeap {
    const empty: StringCell
    ghost var live: set<StringCell>

    constructor ()
      ensures Valid() && live == {} && fresh(empty)
    {
      empty := new StringCell([]);
      live := {};
    }

    /** The shared default is empty and is not a heap string of anybody's. */
    ghost predicate Valid()
      reads this, empty
    {
      empty.contents == [] && empty !in live
    }

    method New(contents: seq<byte>) returns (cell: StringCell)
      requires Valid()
      modifies this
      ensures Valid()
      ensures fresh(cell) && cell != empty && cell.contents == contents
      ensures live == old(live) + {cell}
    {
      cell := new StringCell(contents);
      live := live + {cell};
    }

    method Delete(cell: StringCell)
      requires Valid() && cell in live
      modifies this
      ensures Valid() && live == old(live) - {cell}
    {
      live := live - {cell};
    }
  }

  class ArenaStringPtr {
    var ptr: StringCell

    constructor (default: StringCell)
      ensures ptr == default
    {
      ptr := default;
    }

    /** The heap string this field owns, if any. */
    ghost function Owned(heap: StringHeap): (cells: set<StringCell>)
      reads this
    {
      if ptr == heap.empty then {} else {ptr}
    }

    method SetNoArena(heap: StringHeap, value: seq<byte>)
      requires heap.Valid() && Owned(heap) <= heap.live
      modifies this, heap, Owned(heap)
      ensures heap.Valid()
      ensures ptr != heap.empty && ptr.contents == value
      ensures if old(ptr) == heap.empty then fresh(ptr) && heap.live == old(heap.live) + {ptr}
              else ptr == old(ptr) && heap.live == old(heap.live)
    {
      if ptr == heap.empty {
        ptr := heap.New(value);
      } else {
        ptr.contents := value;
      }
    }

    /** Nothing happens when both fields point at the same string. */
    method AssignWithDefault(heap: StringHeap, value: StringCell)
      requires heap.Valid() && Owned(heap) <= heap.live
      modifies this, heap, Owned(heap)
      ensures heap.Valid()
      ensures if old(ptr) == value then ptr == value && value.contents == old(value.contents)
              else ptr != heap.empty && ptr.contents == old(value.contents)
      ensures if old(ptr) == heap.empty && value != heap.empty then fresh(ptr) && heap.live == old(heap.live) + {ptr}
              else ptr == old(ptr) && heap.live == old(heap.live)
    {
      if ptr != value {
        SetNoArena(heap, value.contents);
      }
    }

    method MutableNoArena(heap: StringHeap) returns (cell: StringCell)
      requires heap.Valid() && Owned(heap) <= heap.live
      modifies this, heap
      ensures heap.Valid()
      ensures cell == ptr != heap.empty && ptr.contents == old(ptr.contents)
      ensures if old(ptr) == heap.empty then fresh(ptr) && heap.live == old(heap.live) + {ptr}
              else ptr == old(ptr) && heap.live == old(heap.live)
    {
      if ptr == heap.empty {
        ptr := heap.New(heap.empty.contents);
      }
      cell := ptr;
    }

    /** The caller takes the string over; the field goes back to the default. */
    method ReleaseNoArena(heap: StringHeap) returns (released: StringCell?)
      modifies this
      ensures ptr == heap.empty
      ensures released == if old(ptr) == heap.empty then null else old(ptr)
    {
      if ptr == heap.empty {
        released := null;
      } else {
        released := ptr;
        ptr := heap.empty;
      }
    }

    /** The field takes `value` over and destroys what it owned before. */
    method SetAllocatedNoArena(heap: StringHeap, value: StringCell?)
      requires heap.Valid() && Owned(heap) <= heap.live
      requires value != null ==> value in heap.live && value != ptr
      modifies this, heap
      ensures heap.Valid() && heap.live == old(heap.live) - old(Owned(heap))
      ensures ptr == if value == null then heap.empty else value
    {
      if ptr != heap.empty {
        heap.Delete(ptr);
      }
      if value != null {
        ptr := value;
      } else {
        ptr := heap.empty;
      }
    }

    method ClearToEmptyNoArena(heap: StringHeap)
      requires heap.Valid()
      modifies Owned(heap)
      ensures ptr.contents == []
    {
      if ptr != heap.empty {
        ptr.contents := [];
      }
    }

    method DestroyNoArena(heap: StringHeap)
      requires heap.Valid() && Owned(heap) <= heap.live
      modifies heap
      ensures heap.Valid() && heap.live == old(heap.live) - Owned(heap)
    {
      if ptr != heap.empty {
        heap.Delete(ptr);
      }
    }

    method Swap(other: ArenaStringPtr)
      modifies this, other
      ensures ptr == old(other.ptr) && other.ptr == old(ptr)
    {
      ptr, other.ptr := other.ptr, ptr;
    }
  }
}
