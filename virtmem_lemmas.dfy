/**
 * What the page-fault handler of main.c guarantees, stated on the value
 * model `VirtMem.Fault` and on sequences of faults `VirtMem.Run`.
 */
module VirtMemLemmas {
  import opened VirtMem

  /** `PROT_READ|PROT_WRITE` is 3, the value the handler tests `bits` against. */
  lemma ReadWriteIsThree()
    ensures PROT_READ_WRITE == 3
  {
  }

  /** First branch, page not mapped, a free frame exists: the lowest free
      slot `i` receives the page, the page is mapped read-only at frame `i`,
      and nothing else changes. */
  lemma LoadIntoLowestEmptyFrame(m: Memory, algorithm: string, page: nat, i: nat)
    requires WellFormed(m) && page in m.entries
    requires algorithm != "rand" && m.entries[page].bits == PROT_NONE
    requires i < |m.table| && m.table[i] == EMPTY
    requires forall j :: 0 <= j < i ==> m.table[j] != EMPTY
    ensures Fault(m, algorithm, page) ==
      Memory(m.table[i := page], m.last, m.entries[page := Entry(i, PROT_READ)])
  {
  }

  /** First branch, page not mapped, every slot occupied: the search finds
      nothing and nothing is evicted, so the state is unchanged. */
  lemma FullTableChangesNothing(m: Memory, algorithm: string, page: nat)
    requires WellFormed(m) && page in m.entries
    requires algorithm != "rand" && m.entries[page].bits == PROT_NONE
    requires forall j :: 0 <= j < |m.table| ==> m.table[j] != EMPTY
    ensures Fault(m, algorithm, page) == m
  {
  }

  /** `bits == 3`, under either branch: the entry is rewritten to its own
      frame with `PROT_READ|PROT_WRITE`. Since that is 3 already, the whole
      state is left as it was: no permission is ever upgraded. */
  lemma WriteFaultKeepsState(m: Memory, algorithm: string, page: nat)
    requires WellFormed(m) && page in m.entries && m.entries[page].bits == 3
    ensures Fault(m, algorithm, page).entries[page] == Entry(m.entries[page].frame, PROT_READ_WRITE)
    ensures Fault(m, algorithm, page) == m
  {
    assert m.entries[page := Entry(m.entries[page].frame, PROT_READ_WRITE)] == m.entries;
  }

  /** A page mapped read-only (`bits == PROT_READ`) that faults, as a write
      to it does, matches none of the tests: nothing changes. */
  lemma ReadOnlyFaultChangesNothing(m: Memory, algorithm: string, page: nat)
    requires WellFormed(m) && page in m.entries && m.entries[page].bits == PROT_READ
    ensures Fault(m, algorithm, page) == m
  {
  }

  /** Cursor branch, page not mapped: the page is mapped read-only at the
      cursor's frame, the cursor advances by one modulo the frame count,
      and the frame table is not touched. */
  lemma CursorLoad(m: Memory, page: nat)
    requires WellFormed(m) && page in m.entries && m.entries[page].bits == PROT_NONE
    ensures Fault(m, "rand", page) ==
      Memory(m.table, (m.last + 1) % |m.table|, m.entries[page := Entry(m.last, PROT_READ)])
    ensures Fault(m, "rand", page).last == if m.last + 1 == |m.table| then 0 else m.last + 1
  {
  }

  /** `bits == 7`: the first branch does nothing; the cursor branch maps the
      page read-only at the cursor's frame and leaves the cursor where it is. */
  lemma BitsSevenFault(m: Memory, algorithm: string, page: nat)
    requires WellFormed(m) && page in m.entries && m.entries[page].bits == 7
    ensures algorithm != "rand" ==> Fault(m, algorithm, page) == m
    ensures algorithm == "rand" ==>
      Fault(m, algorithm, page) == m.(entries := m.entries[page := Entry(m.last, PROT_READ)])
  {
  }

  /** Any `bits` other than 0, 3 and 7 leaves the whole state unchanged. */
  lemma OtherBitsChangeNothing(m: Memory, algorithm: string, page: nat)
    requires WellFormed(m) && page in m.entries
    requires m.entries[page].bits !in {0, 3, 7}
    ensures Fault(m, algorithm, page) == m
  {
  }

  /** The number of occupied slots. */
  function Occupied(table: seq<int>): (r: nat)
    ensures r <= |table|
  {
    if table == [] then 0
    else (if table[0] != EMPTY then 1 else 0) + Occupied(table[1..])
  }

  /** A table that only gains pages never has fewer occupied slots. */
  lemma {:induction false} GrowsOccupied(t: seq<int>, u: seq<int>)
    requires Grows(t, u)
    ensures Occupied(t) <= Occupied(u)
  {
    if t != [] {
      assert Grows(t[1..], u[1..]) by {
        forall i | 0 <= i < |t[1..]|
          ensures u[1..][i] == t[1..][i] || (t[1..][i] == EMPTY && u[1..][i] != EMPTY)
        {
          assert u[1..][i] == u[i + 1] && t[1..][i] == t[i + 1];
        }
      }
      GrowsOccupied(t[1..], u[1..]);
    }
  }

  /** Over any sequence of faults, occupied slots keep their page, a slot
      changes only from EMPTY to a page, and the occupied count never drops. */
  lemma {:induction false} RunNeverFreesFrame(m: Memory, algorithm: string, pages: seq<nat>)
    requires WellFormed(m) && AllMapped(pages, m.entries)
    ensures Grows(m.table, Run(m, algorithm, pages).table)
    ensures Occupied(m.table) <= Occupied(Run(m, algorithm, pages).table)
    decreases |pages|
  {
    var r := Run(m, algorithm, pages);
    if pages != [] {
      var m' := Fault(m, algorithm, pages[0]);
      assert AllMapped(pages[1..], m'.entries) by {
        forall k | 0 <= k < |pages[1..]| ensures pages[1..][k] in m'.entries {
          assert pages[1..][k] == pages[k + 1];
        }
      }
      RunNeverFreesFrame(m', algorithm, pages[1..]);
      assert Grows(m.table, r.table) by {
        forall i | 0 <= i < |m.table|
          ensures r.table[i] == m.table[i] || (m.table[i] == EMPTY && r.table[i] != EMPTY)
        {
          assert m'.table[i] == m.table[i] || (m.table[i] == EMPTY && m'.table[i] != EMPTY);
          assert r.table[i] == m'.table[i] || (m'.table[i] == EMPTY && r.table[i] != EMPTY);
        }
      }
    }
    GrowsOccupied(m.table, r.table);
  }

  /** Under "rand" the frame table is never written, whatever the faults. */
  lemma {:induction false} CursorRunKeepsTable(m: Memory, pages: seq<nat>)
    requires WellFormed(m) && AllMapped(pages, m.entries)
    ensures Run(m, "rand", pages).table == m.table
    decreases |pages|
  {
    if pages != [] {
      var m' := Fault(m, "rand", pages[0]);
      assert m'.table == m.table;
      assert AllMapped(pages[1..], m'.entries) by {
        forall k | 0 <= k < |pages[1..]| ensures pages[1..][k] in m'.entries {
          assert pages[1..][k] == pages[k + 1];
        }
      }
      CursorRunKeepsTable(m', pages[1..]);
    }
  }
}

module VirtMemDirectory {
  import opened VirtMem
  import opened VirtMemLemmas

  /** Slot `i` holds a page whose entry maps it, with some access, at frame `i`. */
  ghost predicate SlotMapped(m: Memory, i: int)
    requires 0 <= i < |m.table|
  {
    var p := m.table[i];
    p >= 0 && p in m.entries && m.entries[p].frame == i && m.entries[p].bits != PROT_NONE
  }

  /** Page `p`'s entry names a frame whose slot holds `p`. */
  ghost predicate InTable(m: Memory, p: nat)
    requires p in m.entries
  {
    var f := m.entries[p].frame;
    0 <= f < |m.table| && m.table[f] == p
  }

  /** The frame table and the page table agree: every occupied slot's page is
      mapped at that slot, and every mapped page sits in the slot it is mapped at. */
  ghost predicate Coherent(m: Memory)
  {
    && (forall i :: 0 <= i < |m.table| && m.table[i] != EMPTY ==> SlotMapped(m, i))
    && (forall p :: p in m.entries && m.entries[p].bits != PROT_NONE ==> InTable(m, p))
  }

  /** A coherent state is a bijection between occupied slots and mapped pages:
      no page occupies two slots. */
  lemma CoherentIsInjective(m: Memory, i: int, j: int)
    requires Coherent(m)
    requires 0 <= i < |m.table| && 0 <= j < |m.table|
    requires m.table[i] != EMPTY && m.table[i] == m.table[j]
    ensures i == j
  {
    assert SlotMapped(m, i) && SlotMapped(m, j);
  }

  /** Before any fault, with no page mapped, the state is coherent. */
  lemma InitialCoherent(nframes: nat, entries: map<nat, Entry>)
    requires nframes > 0
    requires forall p :: p in entries ==> entries[p].bits == PROT_NONE
    ensures Coherent(Initial(nframes, entries))
  {
  }

  /** Every algorithm name but "rand" keeps the two tables coherent across a fault. */
  lemma FaultKeepsCoherent(m: Memory, algorithm: string, page: nat)
    requires WellFormed(m) && page in m.entries && Coherent(m)
    requires algorithm != "rand"
    ensures Coherent(Fault(m, algorithm, page))
  {
    var e := m.entries[page];
    var i := FirstEmpty(m.table);
    if e.bits == PROT_NONE && i < |m.table| {
      var r := Fault(m, algorithm, page);
      assert r.table == m.table[i := page];
      assert r.entries == m.entries[page := Entry(i, PROT_READ)];
      forall j | 0 <= j < |m.table| && m.table[j] != EMPTY
        ensures m.table[j] != page
      {
        assert SlotMapped(m, j);
      }
      forall j | 0 <= j < |r.table| && r.table[j] != EMPTY
        ensures SlotMapped(r, j)
      {
        if j != i {
          assert SlotMapped(m, j);
        }
      }
      forall p | p in r.entries && r.entries[p].bits != PROT_NONE
        ensures InTable(r, p)
      {
        if p != page {
          assert InTable(m, p);
        }
      }
    } else if e.bits == 3 {
      WriteFaultKeepsState(m, algorithm, page);
    }
  }

  /** Hence coherence holds after any sequence of faults under those names. */
  lemma {:induction false} RunKeepsCoherent(m: Memory, algorithm: string, pages: seq<nat>)
    requires WellFormed(m) && AllMapped(pages, m.entries) && Coherent(m)
    requires algorithm != "rand"
    ensures Coherent(Run(m, algorithm, pages))
    decreases |pages|
  {
    if pages != [] {
      var m' := Fault(m, algorithm, pages[0]);
      FaultKeepsCoherent(m, algorithm, pages[0]);
      assert AllMapped(pages[1..], m'.entries) by {
        forall k | 0 <= k < |pages[1..]| ensures pages[1..][k] in m'.entries {
          assert pages[1..][k] == pages[k + 1];
        }
      }
      RunKeepsCoherent(m', algorithm, pages[1..]);
    }
  }
}

module VirtMemOrder {
  import opened VirtMem
  import opened VirtMemLemmas

  /** No page occurs twice in `pages`. */
  ghost predicate Distinct(pages: seq<nat>)
  {
    forall j, k :: 0 <= j < k < |pages| ==> pages[j] != pages[k]
  }

  /** Every page of `pages` is unmapped in `entries`. */
  ghost predicate AllUnmapped(pages: seq<nat>, entries: map<nat, Entry>)
  {
    forall k :: 0 <= k < |pages| ==> pages[k] in entries && entries[pages[k]].bits == PROT_NONE
  }

  /** A fault changes the page-table entry of the faulting page and of no other. */
  lemma FaultTouchesOnlyPage(m: Memory, algorithm: string, page: nat, q: nat)
    requires WellFormed(m) && page in m.entries && q in m.entries && q != page
    ensures Fault(m, algorithm, page).entries[q] == m.entries[q]
  {
  }

  /** A sequence of faults leaves the entry of every page outside it as it was. */
  lemma {:induction false} RunLeavesOthers(m: Memory, algorithm: string, pages: seq<nat>, q: nat)
    requires WellFormed(m) && AllMapped(pages, m.entries) && q in m.entries
    requires forall k :: 0 <= k < |pages| ==> pages[k] != q
    ensures Run(m, algorithm, pages).entries[q] == m.entries[q]
    decreases |pages|
  {
    if pages != [] {
      var m' := Fault(m, algorithm, pages[0]);
      FaultTouchesOnlyPage(m, algorithm, pages[0], q);
      assert AllMapped(pages[1..], m'.entries) by {
        forall k | 0 <= k < |pages[1..]| ensures pages[1..][k] in m'.entries {
          assert pages[1..][k] == pages[k + 1];
        }
      }
      RunLeavesOthers(m', algorithm, pages[1..], q);
    }
  }

  /** After a fault on the first of distinct unmapped pages, the others are
      still distinct, unmapped, and different from the first. */
  lemma RestStillUnmapped(m: Memory, algorithm: string, pages: seq<nat>)
    requires WellFormed(m) && pages != [] && Distinct(pages) && AllUnmapped(pages, m.entries)
    ensures Distinct(pages[1..])
    ensures AllUnmapped(pages[1..], Fault(m, algorithm, pages[0]).entries)
    ensures forall j :: 0 <= j < |pages[1..]| ==> pages[1..][j] != pages[0]
  {
    var rest := pages[1..];
    var m' := Fault(m, algorithm, pages[0]);
    forall j, k | 0 <= j < k < |rest| ensures rest[j] != rest[k] {
      assert rest[j] == pages[j + 1] && rest[k] == pages[k + 1];
    }
    forall k | 0 <= k < |rest|
      ensures rest[k] != pages[0]
      ensures rest[k] in m'.entries && m'.entries[rest[k]].bits == PROT_NONE
    {
      assert rest[k] == pages[k + 1] && pages[k + 1] != pages[0];
      FaultTouchesOnlyPage(m, algorithm, pages[0], rest[k]);
    }
  }

  lemma MulAtLeast(n: int, d: int)
    requires n > 0 && d >= 1
    ensures n * d >= n
  {
  }

  /** Adding the modulus does not change the remainder. */
  lemma ModPlusModulus(k: int, n: int)
    requires n > 0 && k >= 0
    ensures (n + k) % n == k % n
  {
    var q, r := k / n, k % n;
    var q', r' := (n + k) / n, (n + k) % n;
    assert k == n * q + r;
    assert n + k == n * q' + r';
    var d := q' - q - 1;
    assert n * d == r - r';
    if d >= 1 {
      MulAtLeast(n, d);
    } else if d <= -1 {
      assert n * d == -(n * -d);
      MulAtLeast(n, -d);
    }
  }

  lemma ModSmall(a: int, n: int)
    requires 0 <= a < n
    ensures a % n == a
  {
  }

  /** One step of the cursor followed by `k` more lands where `k + 1` steps do. */
  lemma ModShift(a: int, k: nat, n: int)
    requires n > 0 && 0 <= a < n
    ensures ((a + 1) % n + k) % n == (a + 1 + k) % n
  {
    if a + 1 == n {
      assert (a + 1) % n == 0;
      ModPlusModulus(k, n);
    } else {
      assert (a + 1) % n == a + 1;
    }
  }

  /** Under "rand", faults on distinct unmapped pages each advance the
      cursor by one frame: it ends `|pages|` frames further on, modulo the
      frame count. */
  lemma {:induction false} CursorAdvances(m: Memory, pages: seq<nat>)
    requires WellFormed(m) && Distinct(pages) && AllUnmapped(pages, m.entries)
    ensures AllMapped(pages, m.entries)
    ensures Run(m, "rand", pages).last == (m.last + |pages|) % |m.table|
    decreases |pages|
  {
    if pages == [] {
      ModSmall(m.last, |m.table|);
    } else {
      CursorLoad(m, pages[0]);
      RestStillUnmapped(m, "rand", pages);
      CursorAdvances(Fault(m, "rand", pages[0]), pages[1..]);
      ModShift(m.last, |pages| - 1, |m.table|);
    }
  }

  /** Under "rand", faults on distinct unmapped pages hand out frames round
      robin from the cursor: the k-th page is mapped read-only at frame
      `(last + k) % nframes`. */
  lemma {:induction false} CursorRoundRobin(m: Memory, pages: seq<nat>)
    requires WellFormed(m) && Distinct(pages) && AllUnmapped(pages, m.entries)
    ensures AllMapped(pages, m.entries)
    ensures forall k :: 0 <= k < |pages| ==>
      Run(m, "rand", pages).entries[pages[k]] == Entry((m.last + k) % |m.table|, PROT_READ)
    decreases |pages|
  {
    if pages != [] {
      var n := |m.table|;
      var rest := pages[1..];
      CursorLoad(m, pages[0]);
      var m' := Fault(m, "rand", pages[0]);
      RestStillUnmapped(m, "rand", pages);
      CursorRoundRobin(m', rest);
      var r := Run(m', "rand", rest);
      forall k | 0 <= k < |pages|
        ensures r.entries[pages[k]] == Entry((m.last + k) % n, PROT_READ)
      {
        if k == 0 {
          RunLeavesOthers(m', "rand", rest, pages[0]);
          ModSmall(m.last, n);
        } else {
          assert pages[k] == rest[k - 1];
          ModShift(m.last, k - 1, n);
        }
      }
    }
  }

  /** Consequently the cursor branch maps a page onto a frame that an earlier
      page still holds, with nothing unmapped: after `nframes + 1` distinct
      unmapped pages the first and the last share a frame, both readable. */
  lemma CursorSharesFrame(m: Memory, pages: seq<nat>)
    requires WellFormed(m) && Distinct(pages) && AllUnmapped(pages, m.entries)
    requires |pages| == |m.table| + 1
    ensures AllMapped(pages, m.entries)
    ensures Run(m, "rand", pages).entries[pages[0]] == Entry(m.last, PROT_READ)
    ensures Run(m, "rand", pages).entries[pages[|m.table|]] == Entry(m.last, PROT_READ)
  {
    CursorRoundRobin(m, pages);
    var n := |m.table|;
    ModSmall(m.last, n);
    ModPlusModulus(m.last, n);
    assert m.last + n == n + m.last;
    assert m.last + 0 == m.last;
  }

  /** Under any name but "rand", a fault on an unmapped page against a
      table whose first `full` slots are occupied and the rest empty puts
      the page in slot `full`; the table keeps that shape with one more. */
  lemma FillStep(m: Memory, algorithm: string, full: nat, page: nat)
    requires WellFormed(m) && algorithm != "rand"
    requires page in m.entries && m.entries[page].bits == PROT_NONE
    requires full < |m.table|
    requires forall j :: 0 <= j < full ==> m.table[j] != EMPTY
    requires forall j :: full <= j < |m.table| ==> m.table[j] == EMPTY
    ensures Fault(m, algorithm, page) ==
      Memory(m.table[full := page], m.last, m.entries[page := Entry(full, PROT_READ)])
    ensures forall j :: 0 <= j < full + 1 ==> Fault(m, algorithm, page).table[j] != EMPTY
    ensures forall j :: full + 1 <= j < |m.table| ==> Fault(m, algorithm, page).table[j] == EMPTY
  {
    LoadIntoLowestEmptyFrame(m, algorithm, page, full);
  }

  /** Under any name but "rand", faults on distinct unmapped pages against a
      table whose first `full` slots are occupied and the rest empty fill the
      empty slots in order, leave the other slots alone and do not move the
      cursor. */
  lemma {:induction false} FillInOrder(m: Memory, algorithm: string, full: nat, pages: seq<nat>)
    requires WellFormed(m) && algorithm != "rand"
    requires Distinct(pages) && AllUnmapped(pages, m.entries)
    requires full + |pages| <= |m.table|
    requires forall j :: 0 <= j < full ==> m.table[j] != EMPTY
    requires forall j :: full <= j < |m.table| ==> m.table[j] == EMPTY
    ensures AllMapped(pages, m.entries)
    ensures forall k :: 0 <= k < |pages| ==> Run(m, algorithm, pages).table[full + k] == pages[k]
    ensures forall j :: 0 <= j < |m.table| && !(full <= j < full + |pages|) ==>
      Run(m, algorithm, pages).table[j] == m.table[j]
    ensures Run(m, algorithm, pages).last == m.last
    decreases |pages|
  {
    if pages != [] {
      var rest := pages[1..];
      FillStep(m, algorithm, full, pages[0]);
      var m' := Fault(m, algorithm, pages[0]);
      RestStillUnmapped(m, algorithm, pages);
      FillInOrder(m', algorithm, full + 1, rest);
      var r := Run(m', algorithm, rest);
      forall k | 0 <= k < |pages| ensures r.table[full + k] == pages[k] {
        if k > 0 {
          assert pages[k] == rest[k - 1];
        }
      }
    }
  }

  /** ... and the k-th page is mapped read-only at the k-th empty slot. */
  lemma {:induction false} FillInOrderEntries(m: Memory, algorithm: string, full: nat, pages: seq<nat>)
    requires WellFormed(m) && algorithm != "rand"
    requires Distinct(pages) && AllUnmapped(pages, m.entries)
    requires full + |pages| <= |m.table|
    requires forall j :: 0 <= j < full ==> m.table[j] != EMPTY
    requires forall j :: full <= j < |m.table| ==> m.table[j] == EMPTY
    ensures AllMapped(pages, m.entries)
    ensures forall k :: 0 <= k < |pages| ==>
      Run(m, algorithm, pages).entries[pages[k]] == Entry(full + k, PROT_READ)
    decreases |pages|
  {
    if pages != [] {
      var rest := pages[1..];
      FillStep(m, algorithm, full, pages[0]);
      var m' := Fault(m, algorithm, pages[0]);
      RestStillUnmapped(m, algorithm, pages);
      FillInOrderEntries(m', algorithm, full + 1, rest);
      RunLeavesOthers(m', algorithm, rest, pages[0]);
      forall k | 1 <= k < |pages|
        ensures Run(m', algorithm, rest).entries[pages[k]] == Entry(full + k, PROT_READ)
      {
        assert pages[k] == rest[k - 1];
      }
    }
  }
}
