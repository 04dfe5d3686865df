/** Bitfield of unbounded size, a map of pages (src/bitfield/dynamic.rs). */
module DynamicBitfields {
  import opened Common
  import opened Words
  import opened FixedBitfields

  /** The words of every page that exists. */
  type Pages = map<nat, seq<Word>>

  function PageOf(m: Pages, p: nat): seq<Word> {
    if p in m then m[p] else ZeroPage()
  }

  ghost predicate WellFormed(m: Pages) {
    forall p :: p in m ==> |m[p]| == WORDS
  }

  /** The bit at `i`; bits of pages that do not exist are unset. */
  predicate BitIn(m: Pages, i: nat) {
    BitInPage(m, i / PAGE_BITS, i % PAGE_BITS)
  }

  predicate BitInPage(m: Pages, p: nat, j: nat) {
    p in m && 32 * |m[p]| == PAGE_BITS && j < PAGE_BITS && BitOf(m[p], j)
  }

  /** `now` is `was` with exactly the bits in [start, end) set to `value`. */
  ghost predicate RangeWritten(was: Pages, now: Pages, start: nat, end: nat, value: bool) {
    forall i: nat :: BitIn(now, i) == if start <= i < end then value else BitIn(was, i)
  }

  lemma {:induction false} ZeroPageBit(i: nat)
    requires i < PAGE_BITS
    ensures !BitOf(ZeroPage(), i)
  {
    ZeroBit(i % 32);
  }

  /** Writing part of one page. */
  lemma {:induction false} PageStep(was: Pages, before: Pages, now: Pages, p: nat, j: nat, n: nat, start: nat,
                                    value: bool)
    requires WellFormed(before) && j + n <= PAGE_BITS && start <= PAGE_BITS * p + j
    requires RangeWritten(was, before, start, PAGE_BITS * p + j, value)
    requires p in now && now == before[p := now[p]] && Written(PageOf(before, p), now[p], j, j + n, value)
    ensures RangeWritten(was, now, start, PAGE_BITS * p + j + n, value)
  {
    forall i: nat
      ensures BitIn(now, i) == if start <= i < PAGE_BITS * p + j + n then value else BitIn(was, i)
    {
      var q, r := i / PAGE_BITS, i % PAGE_BITS;
      assert i == PAGE_BITS * q + r;
      assert BitIn(before, i) == if start <= i < PAGE_BITS * p + j then value else BitIn(was, i);
      if q == p {
        WrittenBit(PageOf(before, p), now[p], j, j + n, value, r);
        if p !in before {
          ZeroPageBit(r);
        }
      }
    }
  }

  /** Every page that changed is listed for flushing, besides those listed before. */
  ghost predicate ListsChanges(was: Pages, now: Pages, before: seq<nat>, listed: seq<nat>) {
    forall p :: p in listed <==> p in before || PageOf(now, p) != PageOf(was, p)
  }

  /** A range write that has got as far as bit `j` of page `i`. */
  ghost predicate Progress(was: Pages, now: Pages, start: nat, i: nat, j: nat, value: bool,
                           before: seq<nat>, listed: seq<nat>)
  {
    && start <= PAGE_BITS * i + j
    && RangeWritten(was, now, start, PAGE_BITS * i + j, value)
    && (forall p :: p >= i ==> PageOf(now, p) == PageOf(was, p))
    && ListsChanges(was, now, before, listed)
  }

  lemma {:induction false} ProgressStep(was: Pages, mid: Pages, now: Pages, start: nat, i: nat, j: nat, n: nat,
                                        value: bool,
                     before: seq<nat>, midListed: seq<nat>, listed: seq<nat>)
    requires WellFormed(mid) && Progress(was, mid, start, i, j, value, before, midListed) && j + n <= PAGE_BITS
    requires i in now && now == mid[i := now[i]] && Written(PageOf(mid, i), now[i], j, j + n, value)
    requires forall p :: p in listed <==> p in midListed || (p == i && now[i] != PageOf(mid, i))
    ensures RangeWritten(was, now, start, PAGE_BITS * i + j + n, value)
    ensures ListsChanges(was, now, before, listed)
    ensures forall p :: p > i ==> PageOf(now, p) == PageOf(was, p)
  {
    PageStep(was, mid, now, i, j, n, start, value);
  }

  ghost predicate Sized(pages: map<nat, Page>) {
    forall k :: k in pages ==> |pages[k].words| == WORDS
  }

  ghost function WordsOf(pages: map<nat, Page>): (m: Pages)
    ensures m.Keys == pages.Keys
  {
    map k | k in pages :: pages[k].words
  }

  datatype BitfieldUpdate = BitfieldUpdate(drop: bool, start: nat, length: nat)

  /** Bytes to be written to a store at an offset. */
  datatype Write = Write(offset: nat, data: seq<Byte>)

  ghost function PageWrites(m: Pages, listed: seq<nat>): seq<Write> {
    if listed == [] then []
    else
      var p := listed[|listed| - 1];
      PageWrites(m, listed[..|listed| - 1]) + [Write(p * PAGE_BYTES, BytesOf(PageOf(m, p)))]
  }

  class DynamicBitfield {
    var pages: map<nat, Page>
    var unflushed: seq<nat>

    /** The pages listed for flushing are the dirty ones, each listed once. */
    ghost predicate Valid()
      reads this
    {
      && Sized(pages)
      && (forall k :: k in unflushed <==> k in pages && pages[k].dirty)
      && (forall a, b :: 0 <= a < b < |unflushed| ==> unflushed[a] != unflushed[b])
    }

    /** The abstract value: all pages' words. */
    ghost function Words(): (m: Pages)
      reads this
      ensures m.Keys == pages.Keys
    {
      WordsOf(pages)
    }

    function Get(i: nat): (r: bool)
      requires Valid()
      reads this
      ensures r == BitIn(Words(), i)
    {
      var j := i % PAGE_BITS;
      var p := (i - j) / PAGE_BITS;
      if p !in pages then false else BitOf(pages[p].words, j)
    }

    constructor ()
      ensures Valid() && Words() == map[] && unflushed == []
    {
      pages, unflushed := map[], [];
    }

    /** Over the pages read from the store. */
    constructor Opened(pages: map<nat, Page>)
      requires Sized(pages) && forall k :: k in pages ==> !pages[k].dirty
      ensures Valid() && Words() == WordsOf(pages) && unflushed == []
    {
      this.pages, unflushed := pages, [];
    }

    /** Range write within one page, which is created if it does not exist. */
    method WritePage(i: nat, j: nat, n: nat, value: bool)
      requires Valid() && j + n <= PAGE_BITS
      modifies this
      ensures Valid() && i in pages && Words() == old(Words())[i := pages[i].words]
      ensures Written(PageOf(old(Words()), i), pages[i].words, j, j + n, value)
      ensures forall p :: p in unflushed <==> p in old(unflushed) || (p == i && pages[i].words != PageOf(old(Words()), i))
    {
      var page := if i in pages then pages[i] else Page(false, ZeroPage());
      var words, changed := FixedBitfields.SetRange(page.words, j, n, value);
      pages := pages[i := Page(page.dirty || changed, words)];
      if changed && !page.dirty {
        unflushed := unflushed + [i];
      }
      assert Words() == old(Words())[i := words];
    }

    /** Sets all bits in [start, start + length), page by page. */
    method SetRange(start: nat, length: nat, value: bool)
      requires Valid()
      modifies this
      ensures Valid()
      ensures RangeWritten(old(Words()), Words(), start, start + length, value)
      ensures ListsChanges(old(Words()), Words(), old(unflushed), unflushed)
    {
      var j: nat := start % PAGE_BITS;
      var i: nat := (start - j) / PAGE_BITS;
      var left: nat := length;
      ghost var was, before := Words(), unflushed;
      while left > 0
        invariant Valid()
        invariant left > 0 ==> j < PAGE_BITS && PAGE_BITS * i + j + left == start + length
                               && Progress(was, Words(), start, i, j, value, before, unflushed)
        invariant left == 0 ==> RangeWritten(was, Words(), start, start + length, value)
                                && ListsChanges(was, Words(), before, unflushed)
        decreases left
      {
        ghost var mid, midListed := Words(), unflushed;
        var end := if j + left < PAGE_BITS then j + left else PAGE_BITS;
        WritePage(i, j, end - j, value);
        ProgressStep(was, mid, Words(), start, i, j, end - j, value, before, midListed, unflushed);
        left := left - (end - j);
        j := 0;
        i := i + 1;
      }
    }

    /** The changed pages as writes to the bitfield store; nothing is dirty afterwards. */
    method Flush() returns (writes: seq<Write>)
      requires Valid()
      modifies this
      ensures Valid() && unflushed == [] && Words() == old(Words())
      ensures writes == PageWrites(old(Words()), old(unflushed))
    {
      writes := [];
      var listed, was := unflushed, pages;
      for k := 0 to |listed|
        invariant listed == old(unflushed) && was == old(pages)
        invariant writes == PageWrites(WordsOf(was), listed[..k])
      {
        var p := listed[k];
        assert p in listed && listed[..k + 1][..k] == listed[..k];
        var data := ToBytes(was[p].words);
        writes := writes + [Write(p * PAGE_BYTES, data)];
      }
      assert listed[..|listed|] == listed;
      pages := map p | p in was :: was[p].(dirty := false);
      unflushed := [];
    }

    /** `update`: what an oplog entry says about the bitfield. */
    method Update(update: BitfieldUpdate)
      requires Valid()
      modifies this
      ensures Valid()
      ensures RangeWritten(old(Words()), Words(), update.start, update.start + update.length, !update.drop)
      ensures ListsChanges(old(Words()), Words(), old(unflushed), unflushed)
    {
      SetRange(update.start, update.length, !update.drop);
    }

    /** Least set index at or after the position: same page first, then the later pages in order. */
    method IndexOfSet(position: nat) returns (r: Option<nat>)
      requires Valid()
      ensures r.Some? ==> position <= r.value && Get(r.value) && forall k :: position <= k < r.value ==> !Get(k)
      ensures r.None? ==> forall k :: position <= k ==> !Get(k)
    {
      var first: nat := position % PAGE_BITS;
      var page: nat := (position - first) / PAGE_BITS;
      if page in pages {
        var found := IndexOf(pages[page].words, true, first);
        if found.Some? {
          FirstOnPage(Words(), position, page, found.value);
          return Some(page * PAGE_BITS + found.value);
        }
        NoneOnPage(Words(), position, page, first);
      } else {
        NoPages(Words(), position, page, page + 1);
      }
      r := IndexOfLater(pages, position, page + 1);
    }

    /** Greatest set index at or before the position: same page first, then the earlier pages backwards. */
    method LastIndexOfSet(position: nat) returns (r: Option<nat>)
      requires Valid()
      ensures r.Some? ==> r.value <= position && Get(r.value) && forall k :: r.value < k <= position ==> !Get(k)
      ensures r.None? ==> forall k: nat :: k <= position ==> !Get(k)
    {
      var last: nat := position % PAGE_BITS;
      var page: nat := (position - last) / PAGE_BITS;
      if page in pages {
        var found := LastIndexOf(pages[page].words, true, last);
        if found.Some? {
          LastOnPage(Words(), position + 1, page, found.value, last + 1);
          return Some(page * PAGE_BITS + found.value);
        }
        NoneBackOnPage(Words(), position + 1, page, last + 1);
      } else {
        NoPagesBack(Words(), position + 1, page, page + 1);
      }
      r := LastIndexOfEarlier(pages, position, page);
    }
  }

  // ---------------------------------------------------------------- searching

  /** The pages from `next` on, in increasing order. */
  method IndexOfLater(pages: map<nat, Page>, position: nat, next0: nat) returns (r: Option<nat>)
    requires Sized(pages) && position <= PAGE_BITS * next0 && NoneBetween(WordsOf(pages), position, PAGE_BITS * next0)
    ensures r.Some? ==>
              position <= r.value && BitIn(WordsOf(pages), r.value) && NoneBetween(WordsOf(pages), position, r.value)
    ensures r.None? ==> forall k: nat :: position <= k ==> !BitIn(WordsOf(pages), k)
  {
    ghost var m := WordsOf(pages);
    var next: nat := next0;
    var keys := set k | k in pages && k >= next;
    while keys != {}
      invariant forall k :: k in keys <==> k in pages && k >= next
      invariant NoneBetween(m, position, PAGE_BITS * next) && position <= PAGE_BITS * next
      decreases keys
    {
      var key := Least(keys);
      NoPages(m, position, next, key);
      var found := IndexOf(pages[key].words, true, 0);
      if found.Some? {
        FirstOnPage(m, position, key, found.value);
        return Some(key * PAGE_BITS + found.value);
      }
      NoneOnPage(m, position, key, 0);
      next := key + 1;
      keys := keys - {key};
    }
    forall k: nat | position <= k
      ensures !BitIn(m, k)
    {
      NoPages(m, position, next, next + k + 1);
    }
    return None;
  }

  /** The pages before `prev`, in decreasing order. */
  method LastIndexOfEarlier(pages: map<nat, Page>, position: nat, prev0: nat) returns (r: Option<nat>)
    requires Sized(pages) && PAGE_BITS * prev0 <= position
             && NoneBetween(WordsOf(pages), PAGE_BITS * prev0, position + 1)
    ensures r.Some? ==>
              r.value <= position && BitIn(WordsOf(pages), r.value)
              && NoneBetween(WordsOf(pages), r.value + 1, position + 1)
    ensures r.None? ==> NoneBetween(WordsOf(pages), 0, position + 1)
  {
    ghost var m := WordsOf(pages);
    var prev: nat := prev0;
    var keys := set k | k in pages && k < prev;
    while keys != {}
      invariant forall k :: k in keys <==> k in pages && k < prev
      invariant prev <= prev0 && NoneBetween(m, PAGE_BITS * prev, position + 1)
      decreases keys
    {
      var key := Greatest(keys);
      NoPagesBack(m, position + 1, key + 1, prev);
      var found := LastIndexOf(pages[key].words, true, PAGE_BITS - 1);
      if found.Some? {
        LastOnPage(m, position + 1, key, found.value, PAGE_BITS);
        return Some(key * PAGE_BITS + found.value);
      }
      NoneBackOnPage(m, position + 1, key, PAGE_BITS);
      prev := key;
      keys := keys - {key};
    }
    NoPagesBack(m, position + 1, 0, prev);
    return None;
  }

  ghost predicate NoneBetween(m: Pages, from: nat, to: nat) {
    forall k: nat :: from <= k < to ==> !BitIn(m, k)
  }

  /** No page in [p, q) exists. */
  ghost predicate Gap(m: Pages, p: nat, q: nat) {
    forall k :: k in m ==> k < p || q <= k
  }

  method Least(s: set<nat>) returns (least: nat)
    requires s != {}
    ensures least in s && forall k :: k in s ==> least <= k
  {
    least :| least in s;
    var rest := s - {least};
    while rest != {}
      invariant least in s && rest <= s
      invariant forall k :: k in s ==> k in rest || least <= k
      decreases rest
    {
      var k :| k in rest;
      if k < least {
        least := k;
      }
      rest := rest - {k};
    }
  }

  method Greatest(s: set<nat>) returns (greatest: nat)
    requires s != {}
    ensures greatest in s && forall k :: k in s ==> k <= greatest
  {
    greatest :| greatest in s;
    var rest := s - {greatest};
    while rest != {}
      invariant greatest in s && rest <= s
      invariant forall k :: k in s ==> k in rest || k <= greatest
      decreases rest
    {
      var k :| k in rest;
      if k > greatest {
        greatest := k;
      }
      rest := rest - {k};
    }
  }

  lemma {:induction false} PageBit(m: Pages, p: nat, j: nat)
    requires j < PAGE_BITS
    ensures BitIn(m, PAGE_BITS * p + j) <==> BitInPage(m, p, j)
  {
    assert (PAGE_BITS * p + j) / PAGE_BITS == p && (PAGE_BITS * p + j) % PAGE_BITS == j;
  }

  /** A first hit on a page, after nothing before the page. */
  lemma {:induction false} FirstOnPage(m: Pages, from: nat, p: nat, j: nat)
    requires p in m && |m[p]| == WORDS && j < PAGE_BITS && BitOf(m[p], j)
    requires NoneBetween(m, from, PAGE_BITS * p) && from <= PAGE_BITS * p + j
    requires forall i :: 0 <= i < j && from <= PAGE_BITS * p + i ==> !BitOf(m[p], i)
    ensures BitIn(m, p * PAGE_BITS + j) && NoneBetween(m, from, p * PAGE_BITS + j)
  {
    PageBit(m, p, j);
    forall k: nat | from <= k < PAGE_BITS * p + j
      ensures !BitIn(m, k)
    {
      if k >= PAGE_BITS * p {
        PageBit(m, p, k - PAGE_BITS * p);
      }
    }
  }

  lemma {:induction false} NoneOnPage(m: Pages, from: nat, p: nat, j: nat)
    requires p in m && |m[p]| == WORDS && j < PAGE_BITS
    requires NoneBetween(m, from, PAGE_BITS * p + j)
    requires forall i :: j <= i < PAGE_BITS ==> !BitOf(m[p], i)
    ensures NoneBetween(m, from, PAGE_BITS * (p + 1))
  {
    forall k: nat | from <= k < PAGE_BITS * (p + 1)
      ensures !BitIn(m, k)
    {
      if k >= PAGE_BITS * p + j {
        PageBit(m, p, k - PAGE_BITS * p);
      }
    }
  }

  /** Pages that do not exist hold no set bit. */
  lemma {:induction false} NoPages(m: Pages, from: nat, p: nat, q: nat)
    requires p <= q && NoneBetween(m, from, PAGE_BITS * p)
    requires Gap(m, p, q)
    ensures NoneBetween(m, from, PAGE_BITS * q)
  {
    forall k: nat | from <= k < PAGE_BITS * q
      ensures !BitIn(m, k)
    {
      if k >= PAGE_BITS * p {
        assert p <= k / PAGE_BITS < q;
      }
    }
  }

  /** A last hit on a page, before nothing after it. */
  lemma {:induction false} LastOnPage(m: Pages, to: nat, p: nat, j: nat, end: nat)
    requires p in m && |m[p]| == WORDS && j < end <= PAGE_BITS && BitOf(m[p], j)
    requires NoneBetween(m, PAGE_BITS * p + end, to) && PAGE_BITS * p + end <= to
    requires forall i :: j < i < end ==> !BitOf(m[p], i)
    ensures BitIn(m, p * PAGE_BITS + j) && NoneBetween(m, p * PAGE_BITS + j + 1, to)
  {
    PageBit(m, p, j);
    forall k: nat | PAGE_BITS * p + j < k < to
      ensures !BitIn(m, k)
    {
      if k < PAGE_BITS * p + end {
        PageBit(m, p, k - PAGE_BITS * p);
      }
    }
  }

  lemma {:induction false} NoneBackOnPage(m: Pages, to: nat, p: nat, end: nat)
    requires p in m && |m[p]| == WORDS && end <= PAGE_BITS
    requires NoneBetween(m, PAGE_BITS * p + end, to)
    requires forall i :: 0 <= i < end ==> !BitOf(m[p], i)
    ensures NoneBetween(m, PAGE_BITS * p, to)
  {
    forall k: nat | PAGE_BITS * p <= k < to
      ensures !BitIn(m, k)
    {
      if k < PAGE_BITS * p + end {
        PageBit(m, p, k - PAGE_BITS * p);
      }
    }
  }

  lemma {:induction false} NoPagesBack(m: Pages, to: nat, p: nat, q: nat)
    requires p <= q && NoneBetween(m, PAGE_BITS * q, to)
    requires Gap(m, p, q)
    ensures NoneBetween(m, PAGE_BITS * p, to)
  {
    forall k: nat | PAGE_BITS * p <= k < to
      ensures !BitIn(m, k)
    {
      if k < PAGE_BITS * q {
        assert p <= k / PAGE_BITS < q;
      }
    }
  }

  // ---------------------------------------------------------------- opening from a store

  const STRIDE := 1024

  /** The word that page `k` reads at `j`: the same offset in the store, but only from its own stride on. */
  function OpenedWord(data: seq<Byte>, k: nat, j: nat): Word {
    if 4 * j >= STRIDE * k && 4 * j + 4 <= |data| then WordOf(data, 4 * j) else 0
  }

  function OpenedPage(data: seq<Byte>, k: nat): (ws: seq<Word>)
    ensures |ws| == WORDS
  {
    seq(WORDS, j requires 0 <= j < WORDS => OpenedWord(data, k, j))
  }

  ghost function OpenedPages(data: seq<Byte>): Pages {
    map k | 0 <= k < |data| && STRIDE * k < |data| :: OpenedPage(data, k)
  }

  /** `from_data`: reads from an offset on, but stores at the absolute word index. */
  method FromData(dataIndex: nat, data: seq<Byte>) returns (r: Result<seq<Word>>)
    requires |data| % 4 == 0 && dataIndex % STRIDE == 0 && dataIndex < |data|
    ensures r.Ok? <==> dataIndex == 0 || |data| <= PAGE_BYTES
    ensures r.Ok? ==> r.value == OpenedPage(data, dataIndex / STRIDE)
  {
    var words: seq<Word> := ZeroPage();
    var limit := (if dataIndex + PAGE_BYTES < |data| then dataIndex + PAGE_BYTES else |data|) - 4;
    var i := dataIndex;
    while i <= limit
      invariant i % 4 == 0 && dataIndex <= i <= limit + 4 && |words| == WORDS
      invariant i > dataIndex ==> i - 4 < 4 * WORDS
      invariant ReadFrom(data, words, dataIndex, i)
      decreases limit + 4 - i
    {
      var w: nat := i / 4;
      assert i == 4 * w;
      if w >= WORDS {
        return Err(Panic);
      }
      words := words[w := WordOf(data, i)];
      i := i + 4;
    }
    ReadAll(data, words, dataIndex, i);
    return Ok(words);
  }

  lemma {:induction false} ReadAll(data: seq<Byte>, words: seq<Word>, from: nat, to: nat)
    requires |words| == WORDS && ReadFrom(data, words, from, to) && from % STRIDE == 0 && |data| % 4 == 0
    requires to == |data| || to >= PAGE_BYTES
    ensures words == OpenedPage(data, from / STRIDE)
  {
    assert STRIDE * (from / STRIDE) == from;
    forall j | 0 <= j < WORDS
      ensures words[j] == OpenedWord(data, from / STRIDE, j)
    {
    }
  }

  /** The words at store offsets [from, to) have been read, the others are zero. */
  ghost predicate ReadFrom(data: seq<Byte>, words: seq<Word>, from: nat, to: nat)
    requires |words| == WORDS
  {
    to <= |data| && to % 4 == 0
    && forall j :: 0 <= j < WORDS ==> words[j] == if from <= 4 * j && 4 * j + 4 <= to then WordOf(data, 4 * j) else 0
  }

  /** `open`: one page every 1024 bytes of the store. */
  method OpenPages(data: seq<Byte>) returns (r: Result<map<nat, Page>>)
    requires |data| % 4 == 0
    ensures r.Ok? <==> |data| <= PAGE_BYTES
    ensures r.Ok? ==>
              WordsOf(r.value) == OpenedPages(data) && Sized(r.value) && forall k :: k in r.value ==> !r.value[k].dirty
  {
    var pages: map<nat, Page> := map[];
    var dataIndex := 0;
    while dataIndex < |data|
      invariant dataIndex % STRIDE == 0 && (dataIndex > STRIDE ==> |data| <= PAGE_BYTES)
      invariant forall k :: k in pages <==> 0 <= k && STRIDE * k < |data| && STRIDE * k < dataIndex
      invariant forall k :: k in pages ==> pages[k] == Page(false, OpenedPage(data, k))
      decreases |data| - dataIndex
    {
      var page := FromData(dataIndex, data);
      if page.Err? {
        return Err(page.error);
      }
      pages := pages[dataIndex / STRIDE := Page(false, page.value)];
      dataIndex := dataIndex + STRIDE;
    }
    return Ok(pages);
  }

  // ---------------------------------------------------------------- flush and open

  /** All bits of `m` are bits of `words`, taken as page 0. */
  ghost predicate SameBits(m: Pages, words: seq<Word>)
    requires |words| == WORDS
  {
    forall k: nat, r: nat :: r < PAGE_BITS ==> (BitInPage(m, k, r) <==> k == 0 && BitOf(words, r))
  }

  lemma {:induction false} SameBit(m: Pages, words: seq<Word>, i: nat)
    requires |words| == WORDS && SameBits(m, words)
    ensures BitIn(m, i) <==> i < PAGE_BITS && BitOf(words, i)
  {
  }

  lemma {:induction false} OpenedWordIs(words: seq<Word>, k: nat, j: nat)
    requires |words| == WORDS && j < WORDS
    ensures OpenedWord(BytesOf(words), k, j) == if j >= 256 * k then words[j] else 0
  {
    WordOfBytes(words, j);
  }

  lemma {:induction false} OpenedKeys(words: seq<Word>, k: nat)
    requires |words| == WORDS
    ensures k in OpenedPages(BytesOf(words)) <==> k < 4
    ensures k < 4 ==> OpenedPages(BytesOf(words))[k] == OpenedPage(BytesOf(words), k)
  {
  }

  /** What opening a flushed page 0 gives: page k repeats its bits from 8192k on. */
  lemma {:induction false} OpenedBit(words: seq<Word>, k: nat, r: nat)
    requires |words| == WORDS && r < PAGE_BITS
    ensures BitInPage(OpenedPages(BytesOf(words)), k, r) <==> k < 4 && 8192 * k <= r && BitOf(words, r)
  {
    OpenedKeys(words, k);
    var j := r / 32;
    OpenedWordIs(words, k, j);
    ZeroBit(r % 32);
    assert j >= 256 * k <==> r >= 8192 * k;
  }

  ghost predicate AllBelow8192(words: seq<Word>)
    requires |words| == WORDS
  {
    forall r :: 8192 <= r < PAGE_BITS ==> !BitOf(words, r)
  }

  /** The persisted bits come back exactly if none of them is at 8192 or above. */
  lemma {:induction false} OpenAfterFlush(words: seq<Word>)
    requires |words| == WORDS
    ensures SameBits(OpenedPages(BytesOf(words)), words) <==> AllBelow8192(words)
  {
    var m := OpenedPages(BytesOf(words));
    forall k: nat, r: nat | r < PAGE_BITS
      ensures BitInPage(m, k, r) <==> k < 4 && 8192 * k <= r && BitOf(words, r)
    {
      OpenedBit(words, k, r);
    }
    if !AllBelow8192(words) {
      var r: nat :| 8192 <= r < PAGE_BITS && BitOf(words, r);
      assert BitInPage(m, 1, r);
    }
  }

  /** A page with only bit 8192 set is read back with that bit on two pages. */
  lemma {:induction false} Bit8192ComesBackTwice()
    ensures var words := ZeroPage()[256 := 1];
            !SameBits(OpenedPages(BytesOf(words)), words)
            && BitInPage(OpenedPages(BytesOf(words)), 0, 8192) && BitInPage(OpenedPages(BytesOf(words)), 1, 8192)
  {
    var words := ZeroPage()[256 := 1];
    assert BitOf(words, 8192);
    OpenAfterFlush(words);
    OpenedBit(words, 0, 8192);
    OpenedBit(words, 1, 8192);
  }

  /** An empty store opens as a bitfield without bits. */
  lemma {:induction false} OpenEmpty(i: nat)
    ensures !BitIn(OpenedPages([]), i)
  {
  }
}
