/** When the bits of a bitfield survive being flushed and opened again (src/bitfield/dynamic.rs). */
module Persistence {
  import opened Common
  import opened Words
  import opened FixedBitfields
  import opened DynamicBitfields
  import opened Storage

  /** Word `j` of stored page `p`; zero past the end of the store. */
  function PageWord(store: seq<Byte>, p: nat, j: nat): Word {
    if PAGE_BYTES * p + 4 * j + 4 <= |store| then WordOf(store, PAGE_BYTES * p + 4 * j) else 0
  }

  /** Page `p` as it is stored. */
  function StoredPage(store: seq<Byte>, p: nat): (words: seq<Word>)
    ensures |words| == WORDS
  {
    seq(WORDS, j requires 0 <= j < WORDS => PageWord(store, p, j))
  }

  /** The store is made of whole pages, and pages that are not listed for flushing are stored as they are. */
  ghost predicate Persisted(m: Pages, listed: seq<nat>, store: seq<Byte>) {
    && WellFormed(m) && |store| % PAGE_BYTES == 0
    && forall p: nat :: p !in listed ==> StoredPage(store, p) == PageOf(m, p)
  }

  /** A new bitfield over an empty store. */
  lemma {:induction false} NothingPersisted()
    ensures Persisted(map[], [], [])
  {
  }

  /** Range writes keep it, because they list every page they change. */
  lemma {:induction false} WritesKeepPersisted(was: Pages, now: Pages, before: seq<nat>, listed: seq<nat>,
                                               store: seq<Byte>)
    requires Persisted(was, before, store) && WellFormed(now) && ListsChanges(was, now, before, listed)
    ensures Persisted(now, listed, store)
  {
  }

  // ---------------------------------------------------------------- flushing

  lemma {:induction false} PageWritten(store: seq<Byte>, p: nat, words: seq<Word>)
    requires |store| % PAGE_BYTES == 0 && |words| == WORDS
    ensures var now := ApplyWrite(store, Write(p * PAGE_BYTES, BytesOf(words)));
            && |now| == (if |store| < PAGE_BYTES * (p + 1) then PAGE_BYTES * (p + 1) else |store|)
            && StoredPage(now, p) == words && forall q: nat :: q != p ==> StoredPage(now, q) == StoredPage(store, q)
  {
    var bytes := BytesOf(words);
    var now := ApplyWrite(store, Write(p * PAGE_BYTES, bytes));
    WrittenSize(store, p, bytes);
    forall j | 0 <= j < WORDS
      ensures StoredPage(now, p)[j] == words[j]
    {
      WordInside(store, p, bytes, j);
      WordOfBytes(words, j);
    }
    forall q: nat | q != p
      ensures StoredPage(now, q) == StoredPage(store, q)
    {
      forall j | 0 <= j < WORDS
        ensures StoredPage(now, q)[j] == StoredPage(store, q)[j]
      {
        WordOutside(store, p, bytes, q, j);
      }
    }
  }

  lemma {:induction false} WrittenSize(store: seq<Byte>, p: nat, bytes: seq<Byte>)
    requires |store| % PAGE_BYTES == 0 && |bytes| == PAGE_BYTES
    ensures var now := ApplyWrite(store, Write(p * PAGE_BYTES, bytes));
            |now| == if |store| < PAGE_BYTES * (p + 1) then PAGE_BYTES * (p + 1) else |store|
  {
    var k := |store| / PAGE_BYTES;
    assert |store| == PAGE_BYTES * k;
  }

  /** A byte of the store after a page is written. */
  lemma {:induction false} ByteWritten(store: seq<Byte>, at: nat, bytes: seq<Byte>, x: nat)
    ensures var now := ApplyWrite(store, Write(at, bytes));
            && (at <= x < at + |bytes| ==> x < |now| && now[x] == bytes[x - at])
            && (!(at <= x < at + |bytes|) && x < |store| ==> x < |now| && now[x] == store[x])
            && (!(at <= x < at + |bytes|) && |store| <= x < |now| ==> now[x] == 0)
  {
  }

  lemma {:induction false} WordInside(store: seq<Byte>, p: nat, bytes: seq<Byte>, j: nat)
    requires |bytes| == PAGE_BYTES && j < WORDS
    ensures PageWord(ApplyWrite(store, Write(p * PAGE_BYTES, bytes)), p, j) == WordOf(bytes, 4 * j)
  {
    var at: nat := p * PAGE_BYTES;
    var x: nat := at + 4 * j;
    ByteWritten(store, at, bytes, x);
    ByteWritten(store, at, bytes, x + 1);
    ByteWritten(store, at, bytes, x + 2);
    ByteWritten(store, at, bytes, x + 3);
  }

  lemma {:induction false} WordOutside(store: seq<Byte>, p: nat, bytes: seq<Byte>, q: nat, j: nat)
    requires |store| % PAGE_BYTES == 0 && |bytes| == PAGE_BYTES && q != p && j < WORDS
    ensures PageWord(ApplyWrite(store, Write(p * PAGE_BYTES, bytes)), q, j) == PageWord(store, q, j)
  {
    var at: nat := p * PAGE_BYTES;
    var x: nat := q * PAGE_BYTES + 4 * j;
    var k := |store| / PAGE_BYTES;
    assert |store| == PAGE_BYTES * k;
    assert x + 4 <= |store| || |store| <= x;
    assert q < p ==> x + 4 <= at;
    assert p < q ==> at + PAGE_BYTES <= x;
    ByteWritten(store, at, bytes, x);
    ByteWritten(store, at, bytes, x + 1);
    ByteWritten(store, at, bytes, x + 2);
    ByteWritten(store, at, bytes, x + 3);
  }

  /** `now` is `store` with the listed pages written. */
  ghost predicate ListedWritten(m: Pages, listed: seq<nat>, store: seq<Byte>, now: seq<Byte>) {
    && |now| % PAGE_BYTES == 0
    && (|now| <= PAGE_BYTES <==> |store| <= PAGE_BYTES && forall p :: p in listed ==> p == 0)
    && (forall p: nat :: StoredPage(now, p) == if p in listed then PageOf(m, p) else StoredPage(store, p))
  }

  lemma {:induction false} OneMoreWritten(m: Pages, front: seq<nat>, p: nat, store: seq<Byte>, mid: seq<Byte>)
    requires WellFormed(m) && ListedWritten(m, front, store, mid)
    ensures ListedWritten(m, front + [p], store, ApplyWrite(mid, Write(p * PAGE_BYTES, BytesOf(PageOf(m, p)))))
  {
    PageWritten(mid, p, PageOf(m, p));
    assert forall q :: q in front + [p] <==> q in front || q == p;
    assert p > 0 ==> PAGE_BYTES * (p + 1) > PAGE_BYTES;
  }

  lemma {:induction false} PagesWritten(m: Pages, listed: seq<nat>, store: seq<Byte>)
    requires WellFormed(m) && |store| % PAGE_BYTES == 0
    ensures ListedWritten(m, listed, store, ApplyWrites(store, PageWrites(m, listed)))
  {
    if listed == [] {
      NoneWritten(m, store);
    } else {
      var front, last := listed[..|listed| - 1], listed[|listed| - 1];
      PagesWritten(m, front, store);
      OneMoreWritten(m, front, last, store, ApplyWrites(store, PageWrites(m, front)));
      ApplySnoc(store, PageWrites(m, front), Write(last * PAGE_BYTES, BytesOf(PageOf(m, last))));
      assert listed == front + [last];
    }
  }

  lemma {:induction false} NoneWritten(m: Pages, store: seq<Byte>)
    requires |store| % PAGE_BYTES == 0
    ensures ListedWritten(m, [], store, ApplyWrites(store, PageWrites(m, [])))
  {
    assert PageWrites(m, []) == [];
  }

  lemma {:induction false} ApplySnoc(store: seq<Byte>, ws: seq<Write>, w: Write)
    ensures ApplyWrites(store, ws + [w]) == ApplyWrite(ApplyWrites(store, ws), w)
  {
    assert (ws + [w])[..|ws|] == ws;
  }

  /** Flushing leaves nothing listed and everything stored. */
  lemma {:induction false} FlushPersists(m: Pages, listed: seq<nat>, store: seq<Byte>)
    requires Persisted(m, listed, store)
    ensures Persisted(m, [], ApplyWrites(store, PageWrites(m, listed)))
  {
    PagesWritten(m, listed, store);
  }

  // ---------------------------------------------------------------- opening

  /** What opening one stored page gives: page k repeats its bits from 8192k on. */
  lemma {:induction false} OpenedStored(store: seq<Byte>, k: nat, r: nat)
    requires |store| == PAGE_BYTES && r < PAGE_BITS
    ensures BitInPage(OpenedPages(store), k, r) <==> k < 4 && 8192 * k <= r && BitOf(StoredPage(store, 0), r)
  {
    var j := r / 32;
    ZeroBit(r % 32);
    assert k in OpenedPages(store) <==> k < 4;
    assert STRIDE * k <= 4 * j <==> 8192 * k <= r;
    assert StoredPage(store, 0)[j] == PageWord(store, 0, j) == WordOf(store, 4 * j);
  }

  /** Opening the store succeeds and gives exactly the bits of `m`. */
  ghost predicate Reopens(store: seq<Byte>, m: Pages) {
    |store| <= PAGE_BYTES && forall i: nat :: BitIn(OpenedPages(store), i) <==> BitIn(m, i)
  }

  lemma {:induction false} StoredBit(m: Pages, store: seq<Byte>, i: nat)
    requires Persisted(m, [], store)
    ensures BitIn(m, i) <==> BitOf(StoredPage(store, i / PAGE_BITS), i % PAGE_BITS)
  {
    var p, r := i / PAGE_BITS, i % PAGE_BITS;
    assert StoredPage(store, p) == PageOf(m, p);
    if p !in m {
      ZeroPageBit(r);
    }
  }

  /** A page past the end of the store reads as zeros. */
  lemma {:induction false} NothingStored(store: seq<Byte>, p: nat, r: nat)
    requires |store| <= PAGE_BYTES * p && r < PAGE_BITS
    ensures !BitOf(StoredPage(store, p), r)
  {
    ZeroBit(r % 32);
  }

  lemma {:induction false} WholeStoreReopens(m: Pages, store: seq<Byte>)
    requires Persisted(m, [], store)
    ensures Reopens(store, m) <==> |store| <= PAGE_BYTES && forall i: nat :: BitIn(m, i) ==> i < 8192
  {
    if store == [] {
      forall i: nat
        ensures !BitIn(OpenedPages(store), i) && !BitIn(m, i)
      {
        OpenEmpty(i);
        StoredBit(m, store, i);
        NothingStored(store, i / PAGE_BITS, i % PAGE_BITS);
      }
    } else if |store| <= PAGE_BYTES {
      assert |store| == PAGE_BYTES;
      OnePageReopens(m, store);
    }
  }

  /** The bits of a one-page store, before and after. */
  lemma {:induction false} OnePageBit(m: Pages, store: seq<Byte>, i: nat)
    requires Persisted(m, [], store) && |store| == PAGE_BYTES
    ensures BitIn(m, i) ==> i < PAGE_BITS
    ensures BitIn(OpenedPages(store), i) <==>
            i / PAGE_BITS < 4 && 8192 * (i / PAGE_BITS) <= i % PAGE_BITS && BitIn(m, i % PAGE_BITS)
  {
    var p, r := i / PAGE_BITS, i % PAGE_BITS;
    OpenedStored(store, p, r);
    StoredBit(m, store, r);
    StoredBit(m, store, i);
    assert r / PAGE_BITS == 0 && r % PAGE_BITS == r;
    if p > 0 {
      NothingStored(store, p, r);
    }
  }

  lemma {:induction false} OnePageReopens(m: Pages, store: seq<Byte>)
    requires Persisted(m, [], store) && |store| == PAGE_BYTES
    ensures Reopens(store, m) <==> forall i: nat :: BitIn(m, i) ==> i < 8192
  {
    if i: nat :| BitIn(m, i) && i >= 8192 {
      ComesBackTwice(m, store, i);
    } else {
      forall i: nat
        ensures BitIn(OpenedPages(store), i) <==> BitIn(m, i)
      {
        OnePageBit(m, store, i);
        OnePageBit(m, store, i % PAGE_BITS);
      }
    }
  }

  lemma {:induction false} ComesBackTwice(m: Pages, store: seq<Byte>, i: nat)
    requires Persisted(m, [], store) && |store| == PAGE_BYTES && BitIn(m, i) && i >= 8192
    ensures BitIn(OpenedPages(store), PAGE_BITS + i) && !BitIn(m, PAGE_BITS + i)
  {
    OnePageBit(m, store, i);
    OnePageBit(m, store, PAGE_BITS + i);
    assert (PAGE_BITS + i) / PAGE_BITS == 1 && (PAGE_BITS + i) % PAGE_BITS == i;
  }

  /**
   Flushing any bitfield over any store and opening it again gives the bits back if and only if nothing lies,
   or is written, behind the first page of the store and no bit is at 8192 or above.
   */
  lemma {:induction false} FlushedBitsComeBack(m: Pages, listed: seq<nat>, store: seq<Byte>)
    requires Persisted(m, listed, store)
    ensures Reopens(ApplyWrites(store, PageWrites(m, listed)), m) <==>
            && |store| <= PAGE_BYTES && (forall p :: p in listed ==> p == 0)
            && forall i: nat :: BitIn(m, i) ==> i < 8192
  {
    PagesWritten(m, listed, store);
    FlushPersists(m, listed, store);
    WholeStoreReopens(m, ApplyWrites(store, PageWrites(m, listed)));
  }

  /** A bit that is set and cleared again leaves its page listed, and all others stored. */
  method SetAndClear(i: nat) returns (bitfield: DynamicBitfield)
    ensures fresh(bitfield) && bitfield.Valid() && i / PAGE_BITS in bitfield.unflushed
    ensures forall k: nat :: !BitIn(bitfield.Words(), k)
    ensures Persisted(bitfield.Words(), bitfield.unflushed, [])
  {
    bitfield := new DynamicBitfield();
    ghost var was := bitfield.Words();
    NothingPersisted();
    bitfield.SetRange(i, 1, true);
    ghost var mid, listed := bitfield.Words(), bitfield.unflushed;
    assert BitIn(mid, i) && !BitIn(was, i);
    ChangedPage(was, mid, i);
    WritesKeepPersisted(was, mid, [], listed, []);
    bitfield.SetRange(i, 1, false);
    WritesKeepPersisted(mid, bitfield.Words(), listed, bitfield.unflushed, []);
  }

  lemma {:induction false} ChangedPage(was: Pages, now: Pages, i: nat)
    requires was == map[] && BitIn(now, i)
    ensures PageOf(now, i / PAGE_BITS) != PageOf(was, i / PAGE_BITS)
  {
    ZeroPageBit(i % PAGE_BITS);
  }

  /**
   Of a bitfield in which bit 40000 was set and cleared no bit is set, but its flushed store has two pages and cannot be
   opened.
   */
  lemma {:induction false} ClearedBitBlocksOpening(m: Pages, listed: seq<nat>)
    requires Persisted(m, listed, []) && 40000 / PAGE_BITS in listed && forall k: nat :: !BitIn(m, k)
    ensures |ApplyWrites([], PageWrites(m, listed))| > PAGE_BYTES && !Reopens(ApplyWrites([], PageWrites(m, listed)), m)
  {
    PagesWritten(m, listed, []);
  }
}
