# Page-fault handler of the virtual-memory simulator, in Dafny

This project models the page-fault handler `page_fault_handler` in `main.c`
together with the state it updates:

- the global frame table `table`, one slot per physical frame, holding the
  number of the page resident there or `-1` (`EMPTY`) for an empty frame;
- the FIFO cursor `last`;
- the page table's entry `(frame, bits)` for each page. The page table is a
  service outside `main.c`. It is modelled as a map `entries` from page
  number to `Entry(frame, bits)`, read through `GetEntry`
  (`page_table_get_entry`) and written through `SetEntry`
  (`page_table_set_entry`).

Files:

- `cstrings.dfy` (module `CStrings`): `strcmp` from the C library, on
  strings without NUL characters, with the fact that it is zero exactly on
  equal strings as its contract.
- `virtmem.dfy` (module `VirtMem`): the state as a value (`Memory`), the
  lowest-empty-slot search (`FirstEmpty`), the dispatch on the algorithm
  name (`Dispatch`), one fault as a function on values (`Fault`), a
  sequence of faults (`Run`), and the class `Pager`. `Pager` holds the
  frame table as an `array<int>`, the cursor as a field and the page table
  as a map field. Its constructor is the initialisation loop of `main`.
  Its method `PageFaultHandler` is the handler, with the slot-search loop,
  proved to have exactly the effect `Fault` describes.
- `virtmem_lemmas.dfy`: what a fault does in each branch
  (`VirtMemLemmas`), the agreement between the frame table and the page
  table (`VirtMemDirectory`), and the order in which frames are handed out
  (`VirtMemOrder`).
- `scenarios.dfy` (module `Scenarios`): four sequential reads over two
  frames, under each branch.

The handler as written behaves as follows:

- The first branch is taken when `strcmp("rand", algorithm)` is nonzero,
  that is, for every algorithm name except `"rand"`. It places an unmapped
  page in the lowest empty frame. When no frame is empty it does nothing:
  nothing is evicted.
- The second branch is taken only for `"rand"`, because its own test
  `strcmp("fifo", "rand")` is nonzero. It maps an unmapped page at the
  cursor's frame and advances the cursor modulo the frame count. It never
  writes the frame table, and it does not unmap the page that held that
  frame before, so two pages can end up mapped to one frame.
- Both branches rewrite a page whose bits are 3 to its own frame with
  `PROT_READ|PROT_WRITE`. That value is 3 already, so the state does not
  change. A read-only page (bits 1) that faults matches no test, so no
  permission is ever upgraded.
- Bits 7 do nothing in the first branch. In the second branch they map the
  page at the cursor's frame without moving the cursor.

The protection bits take their Linux `<sys/mman.h>` values: `PROT_READ` is
1 and `PROT_WRITE` is 2, so `PROT_READ|PROT_WRITE` is 3. The model computes
the `|` with a bit-vector or, and `ReadWriteIsThree` proves the result is 3.

The usage message at main.c:95 offers the names `rand`, `fifo`, `lru` and
`custom`. The handler looks at the name only through the two `strcmp` tests
above, so `lru`, `custom` and any other name behave like `fifo`.

## Model

| member | source | states |
|---|---|---|
| `CStrings.Strcmp` | main.c:27 | `strcmp` returns -1, 0 or 1, and zero exactly when the two strings are equal, so it is nonzero on any mismatch |
| `VirtMem.Initial` | main.c:105-110 | the state `main` sets up has every one of the `nframes` slots equal to -1 and a cursor inside the frame range |
| `VirtMem.FirstEmpty` | main.c:37-45 | the search returns the lowest slot holding -1, or `nframes` when no slot does, and every slot below the result is occupied |
| `VirtMem.Fault` | main.c:24-88 | after one fault the cursor is still a frame index, the frame count and the set of pages with an entry are unchanged, and each slot either keeps its value or goes from -1 to a page |
| `VirtMem.Run` | main.c:24-88 | any sequence of faults keeps the cursor a frame index and leaves the frame count and the set of pages unchanged |
| `VirtMem.Pager.constructor` | main.c:105-110 | the table is a fresh array of `nframes` slots, each one -1, with the cursor at 0 |
| `VirtMem.Pager.GetEntry` | main.c:33 | returns the frame and bits the page table holds for the page |
| `VirtMem.Pager.SetEntry` | main.c:41 | replaces the page's entry and no other, and leaves the frame table and the cursor alone |
| `VirtMem.Pager.PageFaultHandler` | main.c:24-88 | the new table, cursor and page table are exactly `Fault` of the old ones, the same array is kept, and the class invariant (table length = `nframes` > 0, cursor in range) is preserved |
| `VirtMem.Dispatch` | main.c:27-56 | the first branch runs if and only if the name is not `"rand"`, the second if and only if it is, and one of the two always runs |
| `VirtMemLemmas.ReadWriteIsThree` | main.c:47-49 | `PROT_READ` or-ed with `PROT_WRITE` equals the literal 3 the handler tests |
| `VirtMemLemmas.LoadIntoLowestEmptyFrame` | main.c:35-44 | first branch, bits 0, lowest empty slot `i`: slot `i` gets the page, the entry becomes `(i, PROT_READ)`, every other slot, every other entry and the cursor are unchanged |
| `VirtMemLemmas.FullTableChangesNothing` | main.c:35-46 | first branch, bits 0, no slot equal to -1: table, cursor and page table are all unchanged |
| `VirtMemLemmas.WriteFaultKeepsState` | main.c:47-75 | in either branch, bits 3 rewrites the entry to its same frame with `PROT_READ` or-ed with `PROT_WRITE`, and the whole state stays as it was |
| `VirtMemLemmas.ReadOnlyFaultChangesNothing` | main.c:35-84 | a fault on a page whose bits are `PROT_READ` changes nothing, under either algorithm name |
| `VirtMemLemmas.CursorLoad` | main.c:64-71 | cursor branch, bits 0: the entry becomes `(old last, PROT_READ)`, `last` becomes `(last + 1) % nframes`, which wraps to 0 at the last frame, and the table is untouched |
| `VirtMemLemmas.BitsSevenFault` | main.c:51-84 | bits 7 changes nothing in the first branch; in the cursor branch it sets the entry to `(last, PROT_READ)` without moving `last` or touching the table |
| `VirtMemLemmas.OtherBitsChangeNothing` | main.c:35-84 | bits other than 0, 3 and 7 leave the whole state unchanged |
| `VirtMemLemmas.Occupied` | main.c:37-42 | the number of occupied slots never exceeds the number of frames |
| `VirtMemLemmas.GrowsOccupied` | main.c:39-42 | a table whose slots only go from -1 to a page has at least as many occupied slots as before |
| `VirtMemLemmas.RunNeverFreesFrame` | main.c:39-42 | over any sequence of faults, under either branch, an occupied slot keeps its page, slots only change from -1 to a page, and the occupied count never decreases |
| `VirtMemLemmas.CursorRunKeepsTable` | main.c:56-85 | under `"rand"` the frame table is never written, whatever the faults |
| `VirtMemDirectory.CoherentIsInjective` | main.c:39-42 | when the two tables agree, no page occupies two slots |
| `VirtMemDirectory.InitialCoherent` | main.c:105-110 | with no page mapped, the initial state has the two tables in agreement |
| `VirtMemDirectory.FaultKeepsCoherent` | main.c:35-50 | under any name but `"rand"`, a fault keeps every occupied slot's page mapped at that slot and every mapped page in the slot it is mapped at |
| `VirtMemDirectory.RunKeepsCoherent` | main.c:27-55 | that agreement survives any sequence of faults under any name but `"rand"` |
| `VirtMemOrder.FaultTouchesOnlyPage` | main.c:41 | a fault changes no page-table entry except the faulting page's |
| `VirtMemOrder.RunLeavesOthers` | main.c:24-88 | a sequence of faults leaves the entry of every page not in it unchanged |
| `VirtMemOrder.CursorAdvances` | main.c:69-70 | under `"rand"`, faults on distinct unmapped pages move the cursor by one frame each, modulo the frame count |
| `VirtMemOrder.CursorRoundRobin` | main.c:66-70 | under `"rand"`, the k-th of distinct unmapped pages is mapped read-only at frame `(last + k) % nframes` |
| `VirtMemOrder.CursorSharesFrame` | main.c:64-71 | under `"rand"`, after `nframes + 1` distinct unmapped pages, the first and the last are both mapped read-only at the same frame |
| `VirtMemOrder.FillStep` | main.c:37-44 | under any name but `"rand"`, a table with its first `full` slots occupied and the rest empty gets the page in slot `full` and keeps that shape with one more |
| `VirtMemOrder.FillInOrder` | main.c:37-44 | under any name but `"rand"`, distinct unmapped pages fill the empty slots in order, other slots and the cursor are unchanged |
| `VirtMemOrder.FillInOrderEntries` | main.c:41 | under any name but `"rand"`, the k-th of those pages is mapped read-only at the k-th empty slot |
| `Scenarios.SequentialReadsFirstEmpty` | main.c:27-46 | with 2 frames and `"fifo"`, reads of pages 0..3 map pages 0 and 1 at frames 0 and 1 and leave pages 2 and 3 unmapped |
| `Scenarios.SequentialReadsCursor` | main.c:56-71 | with 2 frames and `"rand"`, reads of pages 0..3 map them at frames 0, 1, 0, 1 with the frame table still empty |

## Left out

- The `disk_write(disk, block, data)` call at main.c:79 is not modelled. `disk` is local to `main`, and `block` and `data` are not declared, so the line does not compile. Only the `page_table_set_entry` that follows it is modelled.
- The `printf` trace at main.c:26 is left out because it is output only.
- `srand(time(NULL))` at main.c:92 is left out because nothing in the handler uses randomness.
- The command-line handling of `main` (main.c:94-141) is left out: the argument count, `atoi`, the choice of workload, and the exit codes. `algorithm` and `nframes` are constructor parameters instead.
- The disk, the page-table service (`page_table_create`, `page_table_get_virtmem`, `page_table_get_physmem`, `page_table_delete`) and the workload programs `sort_program`, `scan_program` and `focus_program` are not part of this model. Their headers are not available. The page table's starting contents are a constructor parameter.
- A failing `realloc` at main.c:105 is not modelled. The code does not check for it. The model requires `nframes > 0`, which also keeps `last % nframes` defined.
- `VirtMem.Pager.PageFaultHandler` requires that the faulting page has a page-table entry. The page-table service only reports faults on its own pages.
- The count of frames the handler reads through `page_table_get_nframes` is taken to be the `nframes` that sized `table`, because `main` passes the same value to `page_table_create`.
- 32-bit `int` overflow is not modelled because it cannot happen. `last + 1` is at most `nframes`, and page numbers and frame indices are below the counts the page table was created with.
- `CStrings.Strcmp`: strings are taken to hold no NUL character. A name with an embedded NUL, such as `"rand\0x"`, is compared in full here, whereas C stops at the NUL and would read `"rand"`. Names come from the command line, where a NUL cannot occur inside an argument.
- The commented-out lines at main.c:86-87 are not modelled because they are not code.
- Eviction, dirty write-back, fault counting, statistics, random victim choice and a frequency policy are not modelled. `main.c` does not contain them.

