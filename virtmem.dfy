/**
 * The page-fault handler of the virtual-memory simulator (main.c) and the
 * frame table it fills in.
 *
 * The handler's state is the global frame table (one slot per physical
 * frame, holding a resident page number or EMPTY), the FIFO cursor `last`,
 * and the page table's entry `(frame, bits)` for each page. The page table
 * is a service outside main.c; here it is a map held beside the frame
 * table, read and written only through GetEntry and SetEntry.
 *
 * `Fault` says, on values, what one call of the handler does; the class
 * `Pager` keeps the same state in an array and fields, and its method
 * `PageFaultHandler` is proved to have exactly the effect `Fault` gives.
 */
module VirtMem {
  import opened CStrings

  /** Marks a frame-table slot that holds no page. */
  const EMPTY: int := -1

  /** Protection bits as <sys/mman.h> defines them on Linux. */
  const PROT_NONE: int := 0
  const PROT_READ: int := 1
  const PROT_WRITE: int := 2
  /** `PROT_READ|PROT_WRITE`, computed with a bitwise or. */
  const PROT_READ_WRITE: int := ((PROT_READ as bv8) | (PROT_WRITE as bv8)) as int

  /** A page-table entry: the frame a page is mapped to and its protection bits. */
  datatype Entry = Entry(frame: int, bits: int)

  /** The handler's whole state as a value: the frame table, the FIFO cursor
      and the page table. The number of frames is `|table|`. */
  datatype Memory = Memory(table: seq<int>, last: int, entries: map<nat, Entry>)

  /** What holds between faults: at least one frame, and the cursor names a frame. */
  ghost predicate WellFormed(m: Memory)
  {
    |m.table| > 0 && 0 <= m.last < |m.table|
  }

  /** The state `main` sets up: every slot empty and the cursor at frame 0;
      the page table is whatever the translation service starts with. */
  function Initial(nframes: nat, entries: map<nat, Entry>): (m: Memory)
    requires nframes > 0
    ensures WellFormed(m) && |m.table| == nframes
    ensures forall i :: 0 <= i < nframes ==> m.table[i] == EMPTY
  {
    Memory(seq(nframes, _ => EMPTY), 0, entries)
  }

  /** The index of the lowest empty slot, or `|table|` when every slot is occupied. */
  function FirstEmpty(table: seq<int>): (r: nat)
    ensures r <= |table|
    ensures r < |table| ==> table[r] == EMPTY
    ensures forall j :: 0 <= j < r ==> table[j] != EMPTY
  {
    if |table| == 0 then 0
    else if table[0] == EMPTY then 0
    else 1 + FirstEmpty(table[1..])
  }

  /** Which branch of the handler runs. */
  datatype Branch = FirstEmptyFill | CursorFill | Neither

  /** The handler's two tests on the algorithm name, exactly as written:
      the first branch is taken when `strcmp("rand", algorithm)` is nonzero,
      the second when `strcmp("fifo", algorithm)` is. Since `strcmp` is
      nonzero on a mismatch, every name but "rand" takes the first branch,
      "rand" takes the second, and one of the two always runs. */
  function Dispatch(algorithm: string): (b: Branch)
    ensures b == FirstEmptyFill <==> algorithm != "rand"
    ensures b == CursorFill <==> algorithm == "rand"
    ensures b != Neither
  {
    if Strcmp("rand", algorithm) != 0 then FirstEmptyFill
    else if Strcmp("fifo", algorithm) != 0 then CursorFill
    else Neither
  }

  /** Slot by slot, `u` keeps every occupied slot of `t`, and a slot of `u`
      that differs from `t` was empty in `t` and now holds a page. */
  ghost predicate Grows(t: seq<int>, u: seq<int>)
  {
    |t| == |u| &&
    forall i :: 0 <= i < |t| ==> u[i] == t[i] || (t[i] == EMPTY && u[i] != EMPTY)
  }

  /** One call of the handler on a fault for `page`. */
  function Fault(m: Memory, algorithm: string, page: nat): (r: Memory)
    requires WellFormed(m) && page in m.entries
    ensures WellFormed(r) && |r.table| == |m.table| && r.entries.Keys == m.entries.Keys
    ensures Grows(m.table, r.table)
  {
    var e := m.entries[page];
    match Dispatch(algorithm)
    case FirstEmptyFill =>
      if e.bits == 0 then
        var i := FirstEmpty(m.table);
        if i < |m.table| then
          m.(table := m.table[i := page], entries := m.entries[page := Entry(i, PROT_READ)])
        else
          m
      else if e.bits == 3 then
        m.(entries := m.entries[page := Entry(e.frame, PROT_READ_WRITE)])
      else
        m  // bits == 7 has an empty body; any other value matches no test
    case CursorFill =>
      if e.bits == 0 then
        m.(entries := m.entries[page := Entry(m.last, PROT_READ)], last := (m.last + 1) % |m.table|)
      else if e.bits == 3 then
        m.(entries := m.entries[page := Entry(e.frame, PROT_READ_WRITE)])
      else if e.bits == 7 then
        m.(entries := m.entries[page := Entry(m.last, PROT_READ)])
      else
        m
    case Neither =>
      m
  }

  /** Every page of `pages` has a page-table entry. */
  ghost predicate AllMapped(pages: seq<nat>, entries: map<nat, Entry>)
  {
    forall k :: 0 <= k < |pages| ==> pages[k] in entries
  }

  /** The handler called once per page of `pages`, in order, as the
      translation service delivers the faults. */
  function Run(m: Memory, algorithm: string, pages: seq<nat>): (r: Memory)
    requires WellFormed(m) && AllMapped(pages, m.entries)
    ensures WellFormed(r) && |r.table| == |m.table| && r.entries.Keys == m.entries.Keys
    decreases |pages|
  {
    if pages == [] then m
    else Run(Fault(m, algorithm, pages[0]), algorithm, pages[1..])
  }

  /** The simulator's global state: `algorithm` is fixed by the command line,
      `table` and `last` are main.c's globals, `nframes` is the frame count
      the page table reports and `entries` is the page table itself. */
  class Pager {
    const algorithm: string
    const nframes: int
    var table: array<int>
    var last: int
    var entries: map<nat, Entry>

    ghost predicate Valid()
      reads this
    {
      table.Length == nframes && nframes > 0 && 0 <= last < nframes
    }

    /** The state as a value. */
    ghost function Snapshot(): Memory
      reads this, table
    {
      Memory(table[..], last, entries)
    }

    /** `main`: the frame table is allocated for `nframes` frames and every
        slot set to EMPTY; `last` starts at 0. */
    constructor (algorithm: string, nframes: int, entries: map<nat, Entry>)
      requires nframes > 0
      ensures Valid() && fresh(table)
      ensures this.algorithm == algorithm && this.nframes == nframes
      ensures forall i :: 0 <= i < nframes ==> table[i] == EMPTY
      ensures Snapshot() == Initial(nframes, entries)
    {
      this.algorithm := algorithm;
      this.nframes := nframes;
      this.entries := entries;
      last := 0;
      var t := new int[nframes];
      var i := 0;
      while i < nframes
        invariant 0 <= i <= nframes
        invariant forall j :: 0 <= j < i ==> t[j] == EMPTY
      {
        t[i] := EMPTY;
        i := i + 1;
      }
      table := t;
      assert t[..] == seq(nframes, _ => EMPTY);
    }

    /** `page_table_get_entry`. */
    method GetEntry(page: nat) returns (frame: int, bits: int)
      requires page in entries
      ensures Entry(frame, bits) == entries[page]
    {
      frame, bits := entries[page].frame, entries[page].bits;
    }

    /** `page_table_set_entry`: only the page's own entry changes. */
    method SetEntry(page: nat, frame: int, bits: int)
      modifies this
      ensures entries == old(entries)[page := Entry(frame, bits)]
      ensures table == old(table) && last == old(last)
    {
      entries := entries[page := Entry(frame, bits)];
    }

    /** `page_fault_handler`. */
    method PageFaultHandler(page: nat)
      requires Valid() && page in entries
      modifies this, table
      ensures Valid() && table == old(table)
      ensures Snapshot() == Fault(old(Snapshot()), algorithm, page)
    {
      if Strcmp("rand", algorithm) != 0 {
        var n := nframes;
        var frame, bits := GetEntry(page);
        if bits == 0 {
          var i := 0;
          while i < n
            invariant 0 <= i <= n
            invariant forall j :: 0 <= j < i ==> table[j] != EMPTY
            invariant Snapshot() == old(Snapshot())
          {
            if table[i] == EMPTY {
              SetEntry(page, i, PROT_READ);
              table[i] := page;
              return;
            }
            i := i + 1;
          }
        } else if bits == 3 {
          SetEntry(page, frame, PROT_READ_WRITE);
        } else if bits == 7 {
        }
      } else if Strcmp("fifo", algorithm) != 0 {
        var n := nframes;
        var frame, bits := GetEntry(page);
        if bits == 0 {
          SetEntry(page, last, PROT_READ);
          last := last + 1;
          last := last % n;
        } else if bits == 3 {
          SetEntry(page, frame, PROT_READ_WRITE);
        } else if bits == 7 {
          SetEntry(page, last, PROT_READ);
        }
      }
    }
  }
}
