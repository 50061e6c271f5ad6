/**
 * Four sequential reads over two frames (pages 0, 1, 2, 3, each faulting
 * unmapped), run through the handler under the two algorithm names that
 * pick its two branches.
 */
module Scenarios {
  import opened VirtMem
  import opened VirtMemLemmas

  /** Four pages, none mapped yet. */
  function Unmapped4(): map<nat, Entry>
  {
    map[0 := Entry(0, PROT_NONE), 1 := Entry(0, PROT_NONE), 2 := Entry(0, PROT_NONE), 3 := Entry(0, PROT_NONE)]
  }

  /** Under "fifo" (the first-empty-frame branch), pages 0 and 1 fill frames
      0 and 1; the faults on pages 2 and 3 find no empty frame, evict
      nothing, and leave those pages unmapped. */
  lemma SequentialReadsFirstEmpty()
    ensures Run(Initial(2, Unmapped4()), "fifo", [0, 1, 2, 3]) ==
      Memory([0, 1], 0, Unmapped4()[0 := Entry(0, PROT_READ)][1 := Entry(1, PROT_READ)])
  {
    var m0 := Initial(2, Unmapped4());
    LoadIntoLowestEmptyFrame(m0, "fifo", 0, 0);
    var m1 := Fault(m0, "fifo", 0);
    assert m1 == Memory([0, EMPTY], 0, Unmapped4()[0 := Entry(0, PROT_READ)]);
    LoadIntoLowestEmptyFrame(m1, "fifo", 1, 1);
    var m2 := Fault(m1, "fifo", 1);
    assert m2 == Memory([0, 1], 0, m1.entries[1 := Entry(1, PROT_READ)]);
    FullTableChangesNothing(m2, "fifo", 2);
    FullTableChangesNothing(m2, "fifo", 3);
    assert [0, 1, 2, 3][1..] == [1, 2, 3] && [1, 2, 3][1..] == [2, 3] && [2, 3][1..] == [3];
  }

  /** Under "rand" (the cursor branch), all four pages are mapped, at frames
      0, 1, 0, 1: pages 2 and 3 share frames with pages 0 and 1, which stay
      mapped, and the frame table stays empty. */
  lemma SequentialReadsCursor()
    ensures Run(Initial(2, Unmapped4()), "rand", [0, 1, 2, 3]) ==
      Memory([EMPTY, EMPTY], 0,
        map[0 := Entry(0, PROT_READ), 1 := Entry(1, PROT_READ), 2 := Entry(0, PROT_READ), 3 := Entry(1, PROT_READ)])
  {
    var m0 := Initial(2, Unmapped4());
    CursorLoad(m0, 0);
    var m1 := Fault(m0, "rand", 0);
    CursorLoad(m1, 1);
    var m2 := Fault(m1, "rand", 1);
    CursorLoad(m2, 2);
    var m3 := Fault(m2, "rand", 2);
    CursorLoad(m3, 3);
    assert [0, 1, 2, 3][1..] == [1, 2, 3] && [1, 2, 3][1..] == [2, 3] && [2, 3][1..] == [3];
  }
}
