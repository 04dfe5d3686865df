/** A page of 32768 bits kept in 1024 words (src/bitfield/fixed.rs). */
module FixedBitfields {
  import opened Common
  import opened Words

  const WORDS := 1024
  const PAGE_BYTES := 4096
  const PAGE_BITS := 32768

  function BitOf(words: seq<Word>, i: nat): bool
    requires i < 32 * |words|
  {
    BitAt(words[i / 32], i % 32)
  }

  /** `now` is `was` with exactly the bits in [start, end) set to `value`. */
  ghost predicate Written(was: seq<Word>, now: seq<Word>, start: nat, end: nat, value: bool) {
    && |now| == |was|
    && forall j: nat, b: nat {:trigger BitAt(now[j], b)} ::
         j < |now| && b < 32 ==> BitAt(now[j], b) == if start <= 32 * j + b < end then value else BitAt(was[j], b)
  }

  // ---------------------------------------------------------------- one word

  /** The masked update of one word. */
  function RangeWord(w: Word, offset: nat, power: nat, value: bool): (r: Word)
    requires offset + power <= 32
    ensures forall b: nat :: b < 32 ==> BitAt(r, b) == if offset <= b < offset + power then value else BitAt(w, b)
    ensures RangeChanges(w, offset, power, value) <==> r != w
  {
    MaskIsWord(offset, power);
    Pow2Is(32);
    var mask := Mask(offset, power);
    assert forall b: nat :: BitAt(mask, b) <==> offset <= b < offset + power by {
      forall b: nat
        ensures BitAt(mask, b) <==> offset <= b < offset + power
      {
        MaskBit(offset, power, b);
      }
    }
    SetMasked(w, mask);
    ClearMasked(w, mask);
    if value then (if And(w, mask) != mask then Or(w, mask) else w)
    else if And(w, mask) != 0 then And(w, Complement(mask, 32)) else w
  }

  predicate RangeChanges(w: Word, offset: nat, power: nat, value: bool)
    requires offset + power <= 32
  {
    if value then And(w, Mask(offset, power)) != Mask(offset, power) else And(w, Mask(offset, power)) != 0
  }

  // ---------------------------------------------------------------- bytes of a page

  function WordBytes(w: Word): (bs: seq<Byte>)
    ensures |bs| == 4
  {
    [w % 256, w / 256 % 256, w / 65536 % 256, w / 16777216]
  }

  /** The four bytes are put together with shifts and ors of disjoint bits. */
  function WordOf(data: seq<Byte>, i: nat): Word
    requires i + 4 <= |data|
  {
    var b0: nat, b1: nat, b2: nat, b3: nat := data[i], data[i + 1], data[i + 2], data[i + 3];
    b0 + 256 * b1 + 65536 * b2 + 16777216 * b3
  }

  function BytesOf(words: seq<Word>): (bs: seq<Byte>)
    ensures |bs| == 4 * |words|
  {
    if words == [] then [] else BytesOf(words[..|words| - 1]) + WordBytes(words[|words| - 1])
  }

  lemma {:induction false} BytesOfSnoc(words: seq<Word>, w: Word)
    ensures BytesOf(words + [w]) == BytesOf(words) + WordBytes(w)
  {
    assert (words + [w])[..|words|] == words;
  }

  lemma {:induction false} WordOfBytes(words: seq<Word>, j: nat)
    requires j < |words|
    ensures WordOf(BytesOf(words), 4 * j) == words[j]
  {
    var front, last := words[..|words| - 1], words[|words| - 1];
    if j < |front| {
      WordOfBytes(front, j);
      WordOfPrefix(BytesOf(front), WordBytes(last), 4 * j);
    } else {
      WordOfSuffix(BytesOf(front), WordBytes(last));
      WordRoundTrip(last);
    }
  }

  lemma {:induction false} WordOfPrefix(a: seq<Byte>, b: seq<Byte>, i: nat)
    requires i + 4 <= |a|
    ensures WordOf(a + b, i) == WordOf(a, i)
  {
  }

  lemma {:induction false} WordOfSuffix(a: seq<Byte>, b: seq<Byte>)
    requires |b| == 4
    ensures WordOf(a + b, |a|) == WordOf(b, 0)
  {
  }

  lemma {:induction false} WordRoundTrip(w: Word)
    ensures WordOf(WordBytes(w), 0) == w
  {
    var a, b := w / 256, w / 65536;
    assert b == a / 256 && w / 16777216 == b / 256;
  }

  // ---------------------------------------------------------------- the page

  /** A page: its words, and whether it has changes that are not flushed. */
  datatype Page = Page(dirty: bool, words: seq<Word>)

  function ZeroPage(): (ws: seq<Word>)
    ensures |ws| == WORDS
  {
    seq(WORDS, _ => 0)
  }

  /** First set index at or after the position. */
  method IndexOf(words: seq<Word>, value: bool, position: nat) returns (r: Option<nat>)
    requires |words| == WORDS
    ensures r.Some? ==> position <= r.value < PAGE_BITS && BitOf(words, r.value) == value
                        && forall i :: position <= i < r.value ==> BitOf(words, i) != value
    ensures r.None? ==> forall i :: position <= i < PAGE_BITS ==> BitOf(words, i) != value
  {
    var i := position;
    while i < PAGE_BITS
      invariant position <= i
      invariant forall k :: position <= k < i && k < PAGE_BITS ==> BitOf(words, k) != value
    {
      if BitOf(words, i) == value {
        return Some(i);
      }
      i := i + 1;
    }
    return None;
  }

  /** Last set index at or before the position. */
  method LastIndexOf(words: seq<Word>, value: bool, position: nat) returns (r: Option<nat>)
    requires |words| == WORDS && position < PAGE_BITS
    ensures r.Some? ==> r.value <= position && BitOf(words, r.value) == value
                        && forall i :: r.value < i <= position ==> BitOf(words, i) != value
    ensures r.None? ==> forall i: nat :: i <= position ==> BitOf(words, i) != value
  {
    var i := position + 1;
    while i > 0
      invariant 0 <= i <= position + 1
      invariant forall k :: i <= k <= position ==> BitOf(words, k) != value
    {
      i := i - 1;
      if BitOf(words, i) == value {
        return Some(i);
      }
    }
    return None;
  }

  /** Little-endian bytes of all words. */
  method ToBytes(words: seq<Word>) returns (data: seq<Byte>)
    ensures data == BytesOf(words)
  {
    data := [];
    for j := 0 to |words|
      invariant data == BytesOf(words[..j])
    {
      assert words[..j + 1] == words[..j] + [words[j]];
      BytesOfSnoc(words[..j], words[j]);
      data := data + WordBytes(words[j]);
    }
    assert words[..|words|] == words;
  }

  /** Range write, masked word by word; the second result is true exactly if some bit flipped. */
  method SetRange(was: seq<Word>, start: nat, length: nat, value: bool) returns (words: seq<Word>, changed: bool)
    requires |was| == WORDS && start + length <= PAGE_BITS
    ensures Written(was, words, start, start + length, value)
    ensures changed <==> words != was
  {
    words := was;
    var end := start + length;
    var remaining: int := end - start;
    var offset: nat := start % 32;
    var i: nat := (start - offset) / 32;
    changed := false;
    while remaining > 0
      invariant offset < 32 && i <= WORDS && |words| == WORDS
      invariant remaining == end - (32 * i + offset)
      invariant i < WORDS || remaining <= 0
      invariant 32 * i + offset == start || offset == 0
      invariant start <= 32 * i + offset
      invariant Written(was, words, start, Min(32 * i + offset, end), value)
      invariant forall j :: i <= j < WORDS ==> words[j] == was[j]
      invariant changed <==> words != was
      decreases 32 * WORDS - 32 * i
    {
      var power := Min(remaining, 32 - offset);
      if RangeChanges(words[i], offset, power, value) {
        changed := true;
      }
      ghost var before := words;
      words := words[i := RangeWord(words[i], offset, power, value)];
      WrittenStep(was, before, words, start, 32 * i + offset, power, value, i, offset);
      assert before[i] == was[i];
      remaining := remaining - (32 - offset);
      offset := 0;
      i := i + 1;
    }
  }

  /** A range write in terms of single bits. */
  lemma {:induction false} WrittenBit(was: seq<Word>, now: seq<Word>, start: nat, end: nat, value: bool, i: nat)
    requires Written(was, now, start, end, value) && i < 32 * |was|
    ensures BitOf(now, i) == if start <= i < end then value else BitOf(was, i)
  {
    assert i == 32 * (i / 32) + i % 32;
    assert BitAt(now[i / 32], i % 32) == if start <= i < end then value else BitAt(was[i / 32], i % 32);
  }

  /** Pages differ exactly if some bit differs. */
  lemma {:induction false} SomeBitDiffers(a: seq<Word>, b: seq<Word>) returns (i: nat)
    requires |a| == |b| && a != b
    ensures i < 32 * |a| && BitOf(a, i) != BitOf(b, i)
  {
    var j :| 0 <= j < |a| && a[j] != b[j];
    if forall k: nat :: BitAt(a[j], k) == BitAt(b[j], k) {
      Extensional(a[j], b[j]);
    }
    var k: nat :| BitAt(a[j], k) != BitAt(b[j], k);
    Pow2Is(32);
    if k >= 32 {
      HighBits(a[j], 32, k);
      HighBits(b[j], 32, k);
    }
    i := 32 * j + k;
    assert i / 32 == j && i % 32 == k;
  }

  function Min(a: int, b: int): int {
    if a <= b then a else b
  }

  /** Bits below `done` are written, and the word at `i` adds [done, done + power). */
  lemma {:induction false} WrittenStep(was: seq<Word>, before: seq<Word>, now: seq<Word>, start: nat, done: nat,
                                       power: nat, value: bool,
                    i: nat, offset: nat)
    requires Written(was, before, start, done, value) && start <= done == 32 * i + offset
    requires i < |was| && offset + power <= 32 && now == before[i := RangeWord(before[i], offset, power, value)]
    ensures Written(was, now, start, done + power, value)
  {
    forall j: nat, b: nat | j < |now| && b < 32
      ensures BitAt(now[j], b) == if start <= 32 * j + b < done + power then value else BitAt(was[j], b)
    {
      assert BitAt(before[j], b) == if start <= 32 * j + b < done then value else BitAt(was[j], b);
    }
  }
}
