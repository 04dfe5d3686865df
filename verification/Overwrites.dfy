/**
 What a core that was reopened with logged entries does to them. Opening starts the counter of entry bytes from 0
 (src/oplog/mod.rs), so the next entry is written over the first ones.
 */
module Overwrites {
  import opened Common
  import opened Hashes
  import opened Prover
  import opened Verify
  import opened FixedBitfields
  import opened DynamicBitfields
  import opened Storage
  import opened Durability
  import opened CoreState

  /** The entries that an entry written after `bytes` bytes takes the place of. */
  function Lost(es: seq<Entry>, bytes: nat, size: nat): seq<Entry> {
    var k, m := EndingBy(es, bytes), EndingBy(es, bytes + size);
    if k <= m then es[k..m] else []
  }

  lemma {:induction false} AfterConcat(view: View, h: nat, a: seq<Entry>, b: seq<Entry>)
    ensures ViewAfter(view, a + b) == ViewAfter(ViewAfter(view, a), b)
    ensures LengthAfter(h, a + b) == LengthAfter(LengthAfter(h, a), b)
  {
    if b == [] {
      assert a + b == a;
    } else {
      assert (a + b)[..|a + b| - 1] == a + b[..|b| - 1] && (a + b)[|a + b| - 1] == b[|b| - 1];
      AfterConcat(view, h, a, b[..|b| - 1]);
    }
  }

  lemma {:induction false} ChainConcat(log: seq<Block>, view: View, h: nat, fork: nat, a: seq<Entry>, b: seq<Entry>)
    ensures Chain(log, view, h, fork, a + b) <==>
            Chain(log, view, h, fork, a) && Chain(log, ViewAfter(view, a), LengthAfter(h, a), fork, b)
  {
    if b == [] {
      assert a + b == a;
    } else {
      var front, e := b[..|b| - 1], b[|b| - 1];
      assert a + b == a + front + [e] && b == front + [e];
      ChainConcat(log, view, h, fork, a, front);
      ChainSnoc(log, view, h, fork, a + front, e);
      ChainSnoc(log, ViewAfter(view, a), LengthAfter(h, a), fork, front, e);
      AfterConcat(view, h, a, front);
    }
  }

  predicate OnlyClears(es: seq<Entry>) {
    forall i :: 0 <= i < |es| ==> es[i].upgrade.None? && es[i].nodes == []
  }

  lemma {:induction false} ClearsStay(view: View, h: nat, es: seq<Entry>)
    requires OnlyClears(es)
    ensures ViewAfter(view, es) == view && LengthAfter(h, es) == h
  {
    if es != [] {
      ClearsStay(view, h, es[..|es| - 1]);
    }
  }

  predicate IsClear(e: Entry) {
    e.upgrade.None? && e.nodes == [] && (e.bitfield.Some? ==> e.bitfield.value.drop)
  }

  lemma {:induction false} ClearFits(log: seq<Block>, view: View, h: nat, fork: nat, e: Entry)
    requires IsClear(e)
    ensures Chain(log, view, h, fork, [e]) && ViewAfter(view, [e]) == view && LengthAfter(h, [e]) == h
  {
    assert OnlyClears([e]);
    ClearsStay(view, h, [e]);
    ChainSnoc(log, view, h, fork, [], e);
    assert [] + [e] == [e];
  }

  /** Clears in a log can be taken out and others put in; the tree is led to the same nodes and the same length. */
  lemma {:induction false} ClearsReplaced(log: seq<Block>, view: View, h: nat, fork: nat, a: seq<Entry>, b: seq<Entry>,
                                          c: seq<Entry>, e: Entry)
    requires Chain(log, view, h, fork, a + b + c) && OnlyClears(b) && IsClear(e)
    ensures Chain(log, view, h, fork, a + [e] + c)
    ensures ViewAfter(view, a + [e] + c) == ViewAfter(view, a + b + c)
            && LengthAfter(h, a + [e] + c) == LengthAfter(h, a + b + c)
  {
    var va, la := ViewAfter(view, a), LengthAfter(h, a);
    Around(log, view, h, fork, a, b, c);
    Around(log, view, h, fork, a, [e], c);
    ClearsStay(va, la, b);
    ClearFits(log, va, la, fork, e);
  }

  lemma {:induction false} SameTreeAfter(d: Disk, log: seq<Block>, a: seq<Entry>, b: seq<Entry>, c: seq<Entry>,
                                         e: Entry)
    requires TreeLogged(d, log) && d.entries.value == a + b + c && OnlyClears(b) && IsClear(e)
    ensures var now := d.(entries := Known(a + [e] + c));
            TreeLogged(now, log) && TreeAfter(log, now, a + [e] + c) == TreeAfter(log, d, a + b + c)
  {
    ClearsReplaced(log, d.tree, d.header.length, d.header.fork, a, b, c, e);
  }

  lemma {:induction false} Around(log: seq<Block>, view: View, h: nat, fork: nat, a: seq<Entry>, b: seq<Entry>,
                                  c: seq<Entry>)
    ensures var va, la := ViewAfter(view, a), LengthAfter(h, a);
            var vb, lb := ViewAfter(va, b), LengthAfter(la, b);
            && ViewAfter(view, a + b + c) == ViewAfter(vb, c) && LengthAfter(h, a + b + c) == LengthAfter(lb, c)
            && (Chain(log, view, h, fork, a + b + c) <==>
                  Chain(log, view, h, fork, a) && Chain(log, va, la, fork, b) && Chain(log, vb, lb, fork, c))
  {
    AfterConcat(view, h, a + b, c);
    AfterConcat(view, h, a, b);
    ChainConcat(log, view, h, fork, a + b, c);
    ChainConcat(log, view, h, fork, a, b);
  }

  /** The stored bits after the updates of the entries. */
  ghost function Replayed(store: seq<Byte>, es: seq<Entry>): iset<nat> {
    iset i: nat | AfterUpdates(es, i, BitIn(OpenedPages(store), i))
  }

  /**
   A clear that takes the place of clears: the stores open to the same tree, with the bits that the remaining entries
   make of the stored ones, and with no others.
   */
  lemma {:induction false} ClearOverClears(d: Disk, log: seq<Block>, t: Tree, bits: iset<nat>, bytes: nat, start: nat,
                                           end: nat)
    requires Opens(d, log, t, bits) && start <= end
    requires var e := ClearEntry(start, end);
             WithEntry(d.entries, bytes, e).Known? && OnlyClears(Lost(d.entries.value, bytes, EntrySize(e)))
    ensures var now := LogEntry(d, bytes, ClearEntry(start, end));
            forall b :: Opens(now, log, t, b) <==> b == Replayed(d.bitfield, now.entries.value)
  {
    var es, e := d.entries.value, ClearEntry(start, end);
    Spliced(es, bytes, e);
    var k, m := EndingBy(es, bytes), EndingBy(es, bytes + EntrySize(e));
    SameTreeAfter(d, log, es[..k], es[k..m], es[m..], e);
    OpensOnly(d.(entries := Known(es[..k] + [e] + es[m..])), log, t, d.bitfield);
  }

  /** Stores that lead to a tree open with exactly the replayed bits. */
  lemma {:induction false} OpensOnly(now: Disk, log: seq<Block>, t: Tree, store: seq<Byte>)
    requires TreeLogged(now, log) && t == TreeAfter(log, now, now.entries.value) && now.bitfield == store
    requires (store == [] || |store| == PAGE_BYTES) && forall i: nat :: BitIn(OpenedPages(store), i) ==> i < 8192
    ensures forall b :: Opens(now, log, t, b) <==> b == Replayed(store, now.entries.value)
  {
    var bits1 := Replayed(store, now.entries.value);
    forall b
      ensures Opens(now, log, t, b) <==> b == bits1
    {
      if Opens(now, log, t, b) {
        assert forall i: nat :: i in b <==> i in bits1;
      }
    }
  }

  /** What is left when an entry starts and ends on boundaries, or reaches the end. */
  lemma {:induction false} Spliced(es: seq<Entry>, bytes: nat, e: Entry)
    requires WithEntry(Known(es), bytes, e).Known?
    ensures var k, m := EndingBy(es, bytes), EndingBy(es, bytes + EntrySize(e));
            && k <= m && es == es[..k] + es[k..m] + es[m..] && Lost(es, bytes, EntrySize(e)) == es[k..m]
            && WithEntry(Known(es), bytes, e) == Known(es[..k] + [e] + es[m..])
            && EntriesSize(es[..k]) == bytes && EndsOn(es, m, bytes + EntrySize(e))
  {
    SplicedBy(es, bytes, EntrySize(e), e);
  }

  /** The first `m` entries end there, or all of them before. */
  predicate EndsOn(es: seq<Entry>, m: nat, end: nat)
    requires m <= |es|
  {
    EntriesSize(es[..m]) == end || (m == |es| && EntriesSize(es[..m]) <= end)
  }

  /** What is garbled is known up to the write, whatever follows it. */
  lemma {:induction false} GarbledFrom(es: seq<Entry>, bytes: nat, e: Entry)
    requires WithEntry(Known(es), bytes, e).Garbled?
    ensures WithEntry(Known(es), bytes, e) == WithEntry(Garbled(es), bytes, e)
  {
    GarbledBy(es, bytes, EntrySize(e), e);
  }

  lemma {:induction false} GarbledBy(es: seq<Entry>, bytes: nat, size: nat, e: Entry)
    requires Overwritten(es, bytes, size, e).Garbled?
    ensures Overwritten(es, bytes, size, e) == WithEntry(Garbled(es), bytes, e)
  {
  }

  lemma {:induction false} SplicedBy(es: seq<Entry>, bytes: nat, size: nat, e: Entry)
    requires bytes == EntriesSize(es) || Overwritten(es, bytes, size, e).Known?
    ensures var k, m := EndingBy(es, bytes), EndingBy(es, bytes + size);
            && k <= m && es == es[..k] + es[k..m] + es[m..] && Lost(es, bytes, size) == es[k..m]
            && (if bytes == EntriesSize(es) then Known(es + [e]) else Overwritten(es, bytes, size, e))
               == Known(es[..k] + [e] + es[m..])
            && EntriesSize(es[..k]) == bytes && EndsOn(es, m, bytes + size)
  {
    if bytes == EntriesSize(es) {
      AtEnd(es, bytes, size, e);
    } else {
      InBetween(es, bytes, size, e);
    }
  }

  lemma {:induction false} AtEnd(es: seq<Entry>, bytes: nat, size: nat, e: Entry)
    requires bytes == EntriesSize(es)
    ensures EndingBy(es, bytes) == EndingBy(es, bytes + size) == |es| && es == es[..|es|] + es[|es|..|es|] + es[|es|..]
    ensures es + [e] == es[..|es|] + [e] + es[|es|..] && EntriesSize(es[..|es|]) == bytes
            && EndsOn(es, |es|, bytes + size)
  {
    EndingAtEnd(es, bytes, 0);
    EndingAtEnd(es, bytes, size);
    assert es[..|es|] == es;
  }

  lemma {:induction false} InBetween(es: seq<Entry>, bytes: nat, size: nat, e: Entry)
    requires Overwritten(es, bytes, size, e).Known?
    ensures var k, m := EndingBy(es, bytes), EndingBy(es, bytes + size);
            && k <= m && es == es[..k] + es[k..m] + es[m..]
            && Overwritten(es, bytes, size, e) == Known(es[..k] + [e] + es[m..])
            && EntriesSize(es[..k]) == bytes && EndsOn(es, m, bytes + size)
  {
    EndingGrows(es, bytes, size);
    InThree(es, EndingBy(es, bytes), EndingBy(es, bytes + size));
    assert es[..|es|] == es;
  }

  lemma {:induction false} InThree(es: seq<Entry>, k: nat, m: nat)
    requires k <= m <= |es|
    ensures es == es[..k] + es[k..m] + es[m..]
  {
  }

  lemma {:induction false} EndingAtEnd(es: seq<Entry>, bytes: nat, n: nat)
    requires EntriesSize(es) <= bytes
    ensures EndingBy(es, bytes + n) == |es|
  {
    assert es[..|es|] == es;
  }

  lemma {:induction false} SizesGrow(es: seq<Entry>, i: nat, j: nat)
    requires i <= j <= |es|
    ensures EntriesSize(es[..i]) <= EntriesSize(es[..j]) && (i < j ==> EntriesSize(es[..i]) < EntriesSize(es[..j]))
  {
    if i < j {
      SizesGrow(es, i, j - 1);
      assert es[..j][..j - 1] == es[..j - 1];
    }
  }

  lemma {:induction false} EndingGrows(es: seq<Entry>, bytes: nat, n: nat)
    ensures EndingBy(es, bytes) <= EndingBy(es, bytes + n)
  {
    var i, j := EndingBy(es, bytes), EndingBy(es, bytes + n);
    if j < i {
      SizesGrow(es, j + 1, i);
    }
  }

  /**
   Whether a crash right after such a clear is harmless: exactly if the remaining entries lead to the bits before or
   after the clear and those blocks are there.
   */
  lemma {:induction false} CrashAfterClear(d: Disk, m: Meaning, bytes: nat, start: nat, end: nat)
    requires Opens(d, m.log, m.tree, m.bits) && start <= end
    requires var e := ClearEntry(start, end);
             WithEntry(d.entries, bytes, e).Known? && OnlyClears(Lost(d.entries.value, bytes, EntrySize(e)))
    ensures var now := LogEntry(d, bytes, ClearEntry(start, end));
            var m', bits1 := WithoutRange(m, start, end), Replayed(d.bitfield, now.entries.value);
            Recoverable(d, now, m, m') <==> (bits1 == m.bits || bits1 == m'.bits) && Holds(d.data, m.log, bits1)
  {
    ClearOverClears(d, m.log, m.tree, m.bits, bytes, start, end);
  }

  // ---------------------------------------------------------------- an append among clears

  predicate AllClear(es: seq<Entry>) {
    forall i :: 0 <= i < |es| ==> IsClear(es[i])
  }

  lemma {:induction false} ClearsFit(log: seq<Block>, view: View, h: nat, fork: nat, es: seq<Entry>)
    requires AllClear(es)
    ensures Chain(log, view, h, fork, es) && ViewAfter(view, es) == view && LengthAfter(h, es) == h
  {
    ClearsStay(view, h, es);
    if es != [] {
      var front, e := es[..|es| - 1], es[|es| - 1];
      ClearsFit(log, view, h, fork, front);
      assert es == front + [e];
      ChainSnoc(log, view, h, fork, front, e);
    }
  }

  /** Among clears an entry that fits the tree leads to what it alone makes of the tree. */
  lemma {:induction false} AmongClears(log: seq<Block>, view: View, h: nat, fork: nat, a: seq<Entry>, e: Entry,
                                       c: seq<Entry>)
    requires AllClear(a) && AllClear(c) && EntryFits(log, view, h, fork, e)
    ensures Chain(log, view, h, fork, a + [e] + c) && ViewAfter(view, a + [e] + c) == AddNodes(view, e.nodes)
    ensures LengthAfter(h, a + [e] + c) == if e.upgrade.Some? then e.upgrade.value.length else h
  {
    Around(log, view, h, fork, a, [e], c);
    ClearsFit(log, view, h, fork, a);
    ChainSnoc(log, view, h, fork, [], e);
    assert [] + [e] == [e] && [e][..0] == [];
    ClearsFit(log, ViewAfter(view, [e]), LengthAfter(h, [e]), fork, c);
  }

  lemma {:induction false} AppendAmongClears(d: Disk, m: Meaning, batch: seq<Block>, a: seq<Entry>, c: seq<Entry>,
                                             fork: nat)
    requires Opens(d, m.log, m.tree, m.bits) && WriterTree(m.log, m.tree) && fork == m.tree.fork
    requires AllClear(d.entries.value) && AllClear(a) && AllClear(c)
    ensures var m', es := WithBatch(m, batch, fork), a + [AppendEntry(m.log + batch, |m.log|, fork)] + c;
            var now := d.(entries := Known(es));
            TreeLogged(now, m'.log) && m'.tree == TreeAfter(m'.log, now, es)
  {
    var h := d.header.length;
    ClearsFit(m.log, d.tree, h, d.header.fork, d.entries.value);
    OpensStable(d, m.log, batch, m.tree, m.bits);
    WriterIsInside(m.log, m.tree);
    AppendFits(m.log, batch, d.tree, fork);
    AmongClears(m.log + batch, d.tree, h, fork, a, AppendEntry(m.log + batch, |m.log|, fork), c);
  }

  lemma {:induction false} OpensAmongClears(d: Disk, m: Meaning, batch: seq<Block>, a: seq<Entry>, c: seq<Entry>,
                                            fork: nat, now: Disk)
    requires Opens(d, m.log, m.tree, m.bits) && WriterTree(m.log, m.tree) && fork == m.tree.fork
    requires AllClear(d.entries.value) && AllClear(a) && AllClear(c)
    requires now == d.(entries := Known(a + [AppendEntry(m.log + batch, |m.log|, fork)] + c),
                       data := now.data)
    ensures var m' := WithBatch(m, batch, fork);
            forall t, b :: Opens(now, m'.log, t, b) <==> t == m'.tree && b == Replayed(d.bitfield, now.entries.value)
  {
    AppendAmongClears(d, m, batch, a, c, fork);
    OpensOnly(now, m.log + batch, WithBatch(m, batch, fork).tree, d.bitfield);
  }

  lemma {:induction false} SplicedClears(es: seq<Entry>, bytes: nat, e: Entry) returns (a: seq<Entry>, c: seq<Entry>)
    requires AllClear(es) && WithEntry(Known(es), bytes, e).Known?
    ensures AllClear(a) && AllClear(c) && WithEntry(Known(es), bytes, e) == Known(a + [e] + c)
  {
    Spliced(es, bytes, e);
    a, c := es[..EndingBy(es, bytes)], es[EndingBy(es, bytes + EntrySize(e))..];
  }

  /**
   An append over logged clears: the stores open to the longer tree, with exactly the bits that the entries then lead
   to.
   */
  lemma {:induction false} AppendOverClears(d: Disk, m: Meaning, batch: seq<Block>, bytes: nat, fork: nat)
    requires Opens(d, m.log, m.tree, m.bits) && WriterTree(m.log, m.tree) && fork == m.tree.fork
             && AllClear(d.entries.value)
    requires WithEntry(d.entries, bytes, AppendEntry(m.log + batch, |m.log|, fork)).Known?
    ensures var now, m' := BatchLogged(d, m.log, batch, bytes, fork), WithBatch(m, batch, fork);
            && now.entries.Known?
            && forall t, b :: Opens(now, m'.log, t, b) <==> t == m'.tree && b == Replayed(d.bitfield, now.entries.value)
  {
    var a, c := SplicedClears(d.entries.value, bytes, AppendEntry(m.log + batch, |m.log|, fork));
    OpensAmongClears(d, m, batch, a, c, fork, BatchLogged(d, m.log, batch, bytes, fork));
  }

  /**
   Whether a crash right after such an append is harmless: exactly if the remaining entries lead to the bits after it,
   that is, if no clear whose entry is gone had dropped a block that is still marked in the store.
   */
  lemma {:induction false} CrashAfterAppend(d: Disk, m: Meaning, batch: seq<Block>, bytes: nat, fork: nat)
    requires Means(d, m) && WriterTree(m.log, m.tree) && fork == m.tree.fork && AllClear(d.entries.value) && batch != []
    requires WithEntry(d.entries, bytes, AppendEntry(m.log + batch, |m.log|, fork)).Known?
    ensures var now, m' := BatchLogged(d, m.log, batch, bytes, fork), WithBatch(m, batch, fork);
            Recoverable(d, now, m, m') <==> Replayed(d.bitfield, now.entries.value) == m'.bits
  {
    var now, m' := BatchLogged(d, m.log, batch, bytes, fork), WithBatch(m, batch, fork);
    AppendOverClears(d, m, batch, bytes, fork);
    BatchStored(d.data, m.log, batch, m.bits, m'.bits);
    if Opens(now, m.log, m.tree, m.bits) {
      OpensStable(now, m.log, batch, m.tree, m.bits);
    }
  }

  /** A smaller entry over the first one garbles the log. */
  lemma {:induction false} SmallerGarbles(es: seq<Entry>, e: Entry)
    requires es != [] && EntrySize(e) < EntrySize(es[0])
    ensures WithEntry(Known(es), 0, e) == Garbled([e])
  {
    SizesGrow(es, 0, 1);
    SizesGrow(es, 0, |es|);
    assert es[..|es|] == es && es[..0] == [] && es[..1][..0] == [] && EntriesSize(es[..1]) == EntrySize(es[0]);
    SmallerGarblesBy(es, EntrySize(e), e);
  }

  lemma {:induction false} SmallerGarblesBy(es: seq<Entry>, size: nat, e: Entry)
    requires es != [] && 0 < size < EntriesSize(es[..1])
    ensures Overwritten(es, 0, size, e) == Garbled([e])
  {
    var m := EndingBy(es, size);
    if m > 0 {
      SizesGrow(es, 1, m);
    }
    assert es[..0] == [] && [] + [e] == [e];
  }

  /** The same clear again, after a reopen: nothing changes. */
  lemma {:induction false} SameEntryAgain(d: Disk, e: Entry)
    requires d.entries == Known([e])
    ensures LogEntry(d, 0, e) == d
  {
    SameSizeReplaces(d, e, e);
    assert [e] + [e][1..] == [e];
  }

  /** An entry of the same size as the first one takes its place without a trace. */
  lemma {:induction false} SameSizeReplaces(d: Disk, first: Entry, e: Entry)
    requires d.entries.Known? && d.entries.value != [] && d.entries.value[0] == first
             && EntrySize(e) == EntrySize(first)
    ensures LogEntry(d, 0, e).entries == Known([e] + d.entries.value[1..])
  {
    var es := d.entries.value;
    SizesGrow(es, 0, |es|);
    assert es[..|es|] == es && es[..1][..0] == [] && es[..0] == [];
    var m := EndingBy(es, EntrySize(e));
    if m > 1 {
      SizesGrow(es, 1, m);
    }
    assert EntriesSize(es[..1]) == EntrySize(first);
    assert m == 1 && EndingBy(es, 0) == 0;
    assert [] + [e] + es[1..] == [e] + es[1..];
  }
}
