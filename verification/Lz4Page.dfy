/** The law of the LZ4 codec of src/zram.rs on one page.

    A result that is not shorter than the input is the input itself, so the
    round trip could still hold if the input happened to be a stream that
    decodes to itself.  Such a stream of at most a page begins so repetitively
    that the match finder always shortens it: no collision in the hash table can
    hide all of its repetitions.
 */
module Lz4Page {
  import opened Prelude
  import opened Lz4Format
  import opened Lz4Codec
  import Arith
  import Seqs

  // ------------------------------------------------------------- such a stream

  /** 240, 255, 255, 0 over and over. */
  function Head(i: nat): byte {
    if i % 4 == 0 then 240 else if i % 4 == 3 then 0 else 255
  }

  /** 12, 0, 193 over and over. */
  function Trail(i: nat): byte {
    if i % 3 == 0 then 12 else if i % 3 == 1 then 0 else 193
  }

  function Heads(n: nat): (r: seq<byte>)
    ensures |r| == n && forall i :: 0 <= i < n ==> r[i] == Head(i)
  {
    seq(n, i requires 0 <= i => Head(i))
  }

  function Trails(n: nat): (r: seq<byte>)
    ensures |r| == n && forall i :: 0 <= i < n ==> r[i] == Trail(i)
  {
    seq(n, i requires 0 <= i => Trail(i))
  }

  const FIRST := Sequence(Heads(525), 12, 4)
  const SECOND := Sequence(Trails(12), 12, 5)

  lemma FirstPrints()
    ensures PrintSequence(FIRST) == Heads(529) + [12, 0]
  {
    assert LengthBytes(510) == [255, 255, 0];
    var header: seq<byte> := [240, 255, 255, 0];
    assert PrintSequence(FIRST) == header + Heads(525) + [12, 0];
    assert Heads(529) == header + Heads(525);
  }

  lemma SecondPrints()
    ensures [12, 0] + PrintSequence(SECOND) == Trails(17)
  {
    assert PrintSequence(SECOND) == [193] + Trails(12) + [12, 0];
  }

  lemma LoopedPrints()
    ensures Print(Block([FIRST, SECOND], None)) == Heads(529) + Trails(17)
  {
    var rest := Block([SECOND], None);
    assert [FIRST] + rest.matches == [FIRST, SECOND] && [SECOND] + [] == [SECOND];
    PrintCons(FIRST, rest);
    PrintCons(SECOND, Block([], None));
    FirstPrints();
    SecondPrints();
    Seqs.Assoc(Heads(529), [12, 0], PrintSequence(SECOND));
  }

  /** Both patterns repeat after twelve bytes. */
  lemma TwelveOn(i: nat)
    ensures Head(i + 12) == Head(i) && Trail(i + 12) == Trail(i)
  {
    Arith.DivModUnique(i + 12, 4, i / 4 + 3, i % 4);
    Arith.DivModUnique(i + 12, 3, i / 3 + 4, i % 3);
  }

  /** Copying from twelve places back goes on with either pattern. */
  lemma HeadsGoOn(n: nat, m: nat)
    requires n >= 12
    ensures CopyMatch(Heads(n), 12, m) == Heads(n + m)
  {
    var out, y := Heads(n), Heads(n + m);
    assert y[..n] == out;
    forall k | 0 <= k < m
      ensures y[n..][k] == y[n - 12..][k]
    {
      TwelveOn(n - 12 + k);
      assert y[n..][k] == Head(n - 12 + k + 12) && y[n - 12..][k] == Head(n - 12 + k);
    }
    CopyMatchIs(out, 12, m, y);
  }

  lemma TrailsGoOn(before: seq<byte>, n: nat, m: nat)
    requires n >= 12
    ensures CopyMatch(before + Trails(n), 12, m) == before + Trails(n + m)
  {
    var out, y := before + Trails(n), before + Trails(n + m);
    forall k | 0 <= k < m
      ensures y[|out|..][k] == y[|out| - 12..][k]
    {
      TwelveOn(n - 12 + k);
    }
    CopyMatchIs(out, 12, m, y);
  }

  lemma LoopedExpands()
    ensures Expand(Block([FIRST, SECOND], None), []) == Some(Heads(529) + Trails(17))
  {
    var rest := Block([SECOND], None);
    assert [FIRST] + rest.matches == [FIRST, SECOND] && [SECOND] + [] == [SECOND];
    ExpandCons(FIRST, rest, []);
    assert [] + Heads(525) == Heads(525);
    HeadsGoOn(525, 4);
    ExpandCons(SECOND, Block([], None), Heads(529));
    TrailsGoOn(Heads(529), 12, 5);
  }

  /** A stream of 546 bytes that decodes to itself. */
  lemma SelfDecodingStream() returns (x: seq<byte>)
    ensures |x| == 546 && Decode(x) == Some(x)
  {
    x := Heads(529) + Trails(17);
    LoopedPrints();
    LoopedExpands();
    ParsePrint(Block([FIRST, SECOND], None));
  }

  // ------------------------------------------------------ how such a stream begins

  /** The literal length that a header of `h` bytes announces: a full nibble, h - 2 times 255, and `b`. */
  function Announced(h: int, b: int): int {
    15 + 255 * (h - 2) + b
  }

  /** Token, extension bytes of 255 and a closing byte. */
  predicate Header(x: seq<byte>, h: nat) {
    && 2 <= h <= |x| && x[0] >= 240 && x[h - 1] < 255
    && forall i :: 1 <= i < h - 1 ==> x[i] == 255
  }

  lemma {:induction false} ReadLengthShape(s: seq<byte>, n: nat) returns (k: nat)
    requires ReadLength(s, n).rest != []
    ensures k < |s| && s[k] < 255 && forall i :: 0 <= i < k ==> s[i] == 255
    ensures ReadLength(s, n) == Length(n + 255 * k + s[k], s[k + 1..])
  {
    if s[0] == 255 {
      var more := ReadLengthShape(s[1..], n + 255);
      k := more + 1;
      assert s[1..][more] == s[k];
      Seqs.DropDrop(s, 1, more + 1);
      forall i | 0 <= i < k
        ensures s[i] == 255
      {
        assert i > 0 ==> s[i] == s[1..][i - 1];
      }
    } else {
      k := 0;
    }
  }

  lemma ReadHeader(x: seq<byte>) returns (h: nat)
    requires x != [] && x[0] >= 240 && ReadLength(x[1..], 15).rest != []
    ensures Header(x, h) && ReadLength(x[1..], 15) == Length(Announced(h, x[h - 1]), x[h..])
  {
    var k := ReadLengthShape(x[1..], 15);
    h := k + 2;
    assert x[1..][k] == x[h - 1];
    Seqs.DropDrop(x, 1, k + 1);
    forall i | 1 <= i < h - 1
      ensures x[i] == 255
    {
      assert x[i] == x[1..][i - 1];
    }
  }

  lemma TokenNibbles(token: int)
    requires 240 <= token < 256
    ensures token / 16 == 15 && token % 16 == token - 240
  {
  }

  /** Where the first sequence lies if its literal length is extended. */
  lemma FirstExtended(x: seq<byte>, q: Sequence) returns (h: nat, n: nat)
    requires x != [] && x[0] >= 240 && Cut(x).Chunk? && q == Cut(x).q
    ensures Header(x, h) && n == Announced(h, x[h - 1]) && h + n + 2 <= |x|
    ensures q.literals == x[h..h + n] && q.offset == LittleEndian(x[h + n], x[h + n + 1])
    ensures if x[0] < 255 then q.matchLen == x[0] - 240 + MIN_MATCH else q.matchLen >= 15 + MIN_MATCH
  {
    TokenNibbles(x[0]);
    assert ReadLength(x[1..], 15).rest != [];
    h := ReadHeader(x);
    n := Announced(h, x[h - 1]);
    Seqs.DropDrop(x, h, n);
    assert x[h..][..n] == x[h..h + n];
    assert x[h + n..][0] == x[h + n] && x[h + n..][1] == x[h + n + 1];
  }

  /** The first `n` bytes stand there again `h` places further on. */
  ghost predicate Repeats(x: seq<byte>, h: nat, n: nat) {
    h + n <= |x| && forall i :: 0 <= i < n ==> x[i] == x[h..][i]
  }

  lemma {:induction false} AtResidue(x: seq<byte>, h: nat, n: nat, p: nat)
    requires 1 <= h && Repeats(x, h, n) && p < h + n
    ensures x[p] == x[p % h]
  {
    if p < h {
      Arith.DivModUnique(p, h, 0, p);
    } else {
      Arith.DivModStep(p, h);
      AtResidue(x, h, n, p - h);
      assert x[p - h] == x[h..][p - h];
    }
  }

  /** The byte of a header at a place counted past its end. */
  function HeaderByte(f: int, b: int, h: nat, place: nat): int {
    var r := if place >= h then place - h else place;
    if r == 0 then f else if r == h - 1 then b else 255
  }

  lemma ByteAt(x: seq<byte>, h: nat, n: nat, p: nat, i: nat, place: nat)
    requires Header(x, h) && Repeats(x, h, n) && p + i < h + n && i <= h && place == p % h + i
    ensures x[p + i] == HeaderByte(x[0], x[h - 1], h, place)
  {
    AtResidue(x, h, n, p + i);
    Arith.ModAdd(p, i, h);
  }

  // ---------------------------------------------------- which headers are possible

  /** The headers of three to six bytes that a stream decoding to itself can have. */
  predicate ShortHeader(f: int, b: int, h: nat) {
    && 240 <= f < 256 && 0 <= b < 255 && 3 <= h <= 6
    && (h == 3 ==> f == 240)
    && (h == 4 ==> f <= 241 || b == 0)
    && (h == 5 ==> f <= 242)
    && (h == 6 ==> f <= 243)
  }

  /** Two neighbours in a repeated header that make a short enough offset are a 255 and the closing byte. */
  lemma NeighboursAsOffset(f: int, b: int, h: nat, place: nat, n: nat)
    requires 240 <= f < 256 && 0 <= b < 255 && 3 <= h && place < h && n < 61440
    requires LittleEndian(HeaderByte(f, b, h, place), HeaderByte(f, b, h, place + 1)) <= n
    ensures place == h - 2 && HeaderByte(f, b, h, place) == 255 && HeaderByte(f, b, h, place + 1) == b
  {
  }

  /** If the first match reaches the bytes of its own offset, they are two neighbours in the header. */
  lemma OffsetInHeader(x: seq<byte>, h: nat, n: nat, offset: nat)
    requires Header(x, h) && 3 <= h && Repeats(x, h, n) && h + n + 2 <= |x| && 1 <= offset <= n < 61440
    requires offset == LittleEndian(x[h + n], x[h + n + 1])
    requires x[h + n] == x[h + n - offset] && x[h + n + 1] == x[h + n + 1 - offset]
    ensures offset == LittleEndian(255, x[h - 1]) && (h + n - offset) % h == h - 2
  {
    var p := h + n - offset;
    if offset >= 2 {
      var place := p % h;
      ByteAt(x, h, n, p, 0, place);
      ByteAt(x, h, n, p, 1, place + 1);
      NeighboursAsOffset(x[0], x[h - 1], h, place, n);
    }
  }

  lemma FourAndZero(h: nat, b: int, n: nat, offset: nat)
    requires 3 <= h <= 6 && 0 <= b < 255 && offset == LittleEndian(255, b) <= n == Announced(h, b)
    requires (h + n - offset) % h == h - 2
    ensures h == 4 && b == 0
  {
    assert h == 3 || h == 4 || h == 5 || h == 6;
  }

  /** How a stream that decodes to itself begins. */
  ghost predicate Begins(x: seq<byte>, h: nat, n: nat) {
    && Header(x, h) && 3 <= h && n == Announced(h, x[h - 1])
    && h + n + 2 <= |x| && Repeats(x, h, n)
    && (h <= 6 ==> ShortHeader(x[0], x[h - 1], h))
  }

  /** Where the offset of the first sequence lies and what follows if its match reaches there. */
  ghost predicate FirstMatch(x: seq<byte>, h: nat, n: nat, offset: nat, m: nat)
    requires x != []
  {
    && h + n + 2 <= |x| && 1 <= offset <= n && offset == LittleEndian(x[h + n], x[h + n + 1])
    && (if x[0] < 255 then m == x[0] - 240 + MIN_MATCH else m >= 15 + MIN_MATCH)
    && (m >= h + 2 ==> x[h + n] == x[h + n - offset] && x[h + n + 1] == x[h + n + 1 - offset])
  }

  lemma LongHeader(x: seq<byte>)
    requires x != [] && Decode(x) == Some(x)
    ensures |x| >= MIN_INPUT && x[0] >= 240 && x[1] == 255
  {
    if |x| < MIN_INPUT || x[0] < 240 || x[1] < 255 {
      NoSelfDecoding(x);
    }
  }

  /** The first sequence of a stream that decodes to itself. */
  lemma SelfDecodingFirst(x: seq<byte>) returns (q: Sequence)
    requires x != [] && Decode(x) == Some(x)
    ensures Cut(x).Chunk? && q == Cut(x).q
    ensures 1 <= q.offset <= |q.literals| && CopyMatch(q.literals, q.offset, q.matchLen) <= x
  {
    SelfDecodingCopies(x);
    q := Cut(x).q;
  }

  lemma CopyRepeats(x: seq<byte>, h: nat, n: nat, own: seq<byte>, offset: nat, m: nat)
    requires h + n + 2 <= |x| && own == x[h..h + n] && 1 <= offset <= |own| && m >= MIN_MATCH
    requires CopyMatch(own, offset, m) <= x
    ensures Repeats(x, h, n)
    ensures m >= h + 2 ==> x[h + n] == x[h + n - offset] && x[h + n + 1] == x[h + n + 1 - offset]
  {
    CopiedFromItself(x, h, n, own, offset, m);
    if m >= h + 2 {
      var i, j := h + n, h + n + 1;
      CopiedAt(x, own, offset, m, i);
      CopiedAt(x, own, offset, m, j);
    }
  }

  lemma SelfDecodingRepeats(x: seq<byte>) returns (h: nat, n: nat, offset: nat, m: nat)
    requires x != [] && Decode(x) == Some(x)
    ensures Header(x, h) && 3 <= h && n == Announced(h, x[h - 1])
    ensures FirstMatch(x, h, n, offset, m) && Repeats(x, h, n)
  {
    LongHeader(x);
    var q := SelfDecodingFirst(x);
    h, n := FirstExtended(x, q);
    offset, m := q.offset, q.matchLen;
    CopyRepeats(x, h, n, q.literals, offset, m);
  }

  /** A match that reaches its own offset is possible in a short header with four and zero only. */
  lemma LongMatchForcesHeader(x: seq<byte>, h: nat, n: nat, offset: nat, m: nat)
    requires Header(x, h) && 3 <= h <= 6 && n == Announced(h, x[h - 1]) && h + 2 <= m
    requires FirstMatch(x, h, n, offset, m) && Repeats(x, h, n)
    ensures h == 4 && x[h - 1] == 0
  {
    OffsetInHeader(x, h, n, offset);
    FourAndZero(h, x[h - 1], n, offset);
  }

  lemma MatchForcesHeader(x: seq<byte>, h: nat, n: nat, offset: nat, m: nat)
    requires Header(x, h) && 3 <= h <= 6 && n == Announced(h, x[h - 1])
    requires FirstMatch(x, h, n, offset, m) && Repeats(x, h, n)
    ensures ShortHeader(x[0], x[h - 1], h)
  {
    if m >= h + 2 {
      LongMatchForcesHeader(x, h, n, offset, m);
    }
  }

  lemma SelfDecodingBegins(x: seq<byte>) returns (h: nat, n: nat)
    requires x != [] && Decode(x) == Some(x)
    ensures Begins(x, h, n)
  {
    var offset, m;
    h, n, offset, m := SelfDecodingRepeats(x);
    if h <= 6 {
      MatchForcesHeader(x, h, n, offset, m);
    }
  }

  // --------------------------------------------------- windows that cannot collide

  /** `d` is closer to the multiple q * 2^32 than slots are wide. */
  predicate Close(d: int, q: int) {
    -0x10_0000 < d - q * U32 < 0x10_0000
  }

  lemma TopBits(a: int)
    ensures a % U32 / 0x10_0000 % TABLE_SIZE == a % U32 / 0x10_0000
  {
  }

  /** Words in the same slot have products that are close modulo 2^32. */
  lemma SameSlotClose(u: int, v: int, d: int, k: int) returns (q: int)
    requires Mix(u) == Mix(v) && (u - v) * HASH_FACTOR == d + k * U32
    ensures Close(d, q)
  {
    var a, b := u * HASH_FACTOR, v * HASH_FACTOR;
    assert a - b == d + k * U32;
    TopBits(a);
    TopBits(b);
    q := a / U32 - b / U32 - k;
  }

  lemma FarHeadLow(f: int, u: int, v: int, q: int)
    requires 240 <= f < 242 && 0 <= u <= 31 && 0 <= v < 8
    ensures !Close(-1723713713 * f - 1640531535 * v - 239350392 * u - 1110920960, q)
  {
  }

  lemma FarHeadHigh(f: int, u: int, v: int, q: int)
    requires 242 <= f < 244 && 0 <= u <= 31 && 0 <= v < 8
    ensures !Close(-1723713713 * f - 1640531535 * v - 239350392 * u - 1110920960, q)
  {
  }

  lemma ApartHead(f: int, b: int)
    requires 240 <= f < 244 && 0 <= b < 255
    ensures Mix(Word(b, f, 255, 255)) != Mix(Word(f, 255, 255, 255))
  {
    var w, w' := Word(b, f, 255, 255), Word(f, 255, 255, 255);
    if Mix(w) == Mix(w') {
      var q := SameSlotClose(w, w', -1723713713 * f - 1640531535 * b - 1110920960, 158 * f + b - 40345);
      if f < 242 {
        FarHeadLow(f, b / 8, b % 8, q + 3 * (b / 8));
      } else {
        FarHeadHigh(f, b / 8, b % 8, q + 3 * (b / 8));
      }
    }
  }

  lemma FarRun(f: int, u: int, v: int, q: int)
    requires 240 <= f < 244 && 0 <= u <= 31 && 0 <= v < 8
    ensures !Close(930722048 * f - 1640531535 * v - 239350392 * u + 612792753, q)
  {
  }

  lemma ApartRun(f: int, b: int)
    requires 240 <= f < 244 && 0 <= b < 255
    ensures Mix(Word(b, f, 255, 255)) != Mix(Word(255, 255, 255, 255))
  {
    var w, w' := Word(b, f, 255, 255), Word(255, 255, 255, 255);
    if Mix(w) == Mix(w') {
      var q := SameSlotClose(w, w', 930722048 * f - 1640531535 * b + 612792753, 158 * f + b - 40503);
      FarRun(f, b / 8, b % 8, q + 3 * (b / 8));
    }
  }

  lemma FarRunEnd(f: int, u: int, v: int, q: int)
    requires 240 <= f < 244 && 0 <= u <= 18 && 0 <= v < 14
    ensures !Close(930722048 * f - 315131471 * v - 116873298 * u + 1938192817, q)
  {
  }

  lemma ApartRunEnd(f: int, b: int)
    requires 240 <= f < 244 && 0 <= b < 255
    ensures Mix(Word(b, f, 255, 255)) != Mix(Word(255, 255, 255, b))
  {
    var w, w' := Word(b, f, 255, 255), Word(255, 255, 255, b);
    if Mix(w) == Mix(w') {
      var q := SameSlotClose(w, w', 930722048 * f - 315131471 * b + 1938192817, 158 * f - 10368889 * b + 2644026368);
      FarRunEnd(f, b / 14, b % 14, q + (b / 14));
    }
  }

  lemma FarTail(f: int, u: int, v: int, q: int)
    requires 240 <= f < 244 && 0 <= u <= 36 && 0 <= v < 7
    ensures !Close(-2038845184 * f + 612792753 * v - 5418025 * u - 1428850255, q)
  {
  }

  lemma FarTailZero(f: int, q: int)
    requires 240 <= f < 256
    ensures !Close(-2038845184 * f - 1428850255, q)
  {
  }

  lemma ApartTail(f: int, b: int)
    requires 240 <= f < 256 && 0 <= b < 255 && (f < 244 || b == 0)
    ensures Mix(Word(b, f, 255, 255)) != Mix(Word(255, 255, b, f))
  {
    var w, w' := Word(b, f, 255, 255), Word(255, 255, b, f);
    if Mix(w) == Mix(w') {
      var q := SameSlotClose(w, w', -2038845184 * f + 612792753 * b - 1428850255,
                             -10368731 * f - 40503 * b + 2654354755);
      if b == 0 {
        FarTailZero(f, q);
      } else {
        FarTail(f, b / 7, b % 7, q - (b / 7));
      }
    }
  }

  lemma FarGap(f: int, u: int, v: int, q: int)
    requires 240 <= f < 244 && 0 <= u <= 50 && 0 <= v < 5 && !(f == 241 && u == 17 && v == 4)
    ensures !Close(-1110920960 * f + 1723713713 * v + 28633973 * u - 1643329359, q)
  {
  }

  lemma FarGapZero(f: int, q: int)
    requires 240 <= f < 256
    ensures !Close(-1110920960 * f - 1643329359, q)
  {
  }

  /** The slot of a word whose product is written out. */
  lemma MixAt(v: int, q: int, slot: nat, low: nat)
    requires v * HASH_FACTOR == q * U32 + slot * 0x10_0000 + low && slot < TABLE_SIZE && low < 0x10_0000
    ensures Mix(v) == slot
  {
    Arith.DivModUnique(v * HASH_FACTOR, U32, q, slot * 0x10_0000 + low);
    Arith.DivModUnique(slot * 0x10_0000 + low, 0x10_0000, slot, low);
    Arith.DivModUnique(slot, TABLE_SIZE, 0, slot);
  }

  /** The one case in which the products are close, in neighbouring slots. */
  lemma ApartGapOnce()
    ensures Mix(Word(89, 241, 255, 255)) != Mix(Word(255, 89, 241, 255))
  {
    MixAt(Word(89, 241, 255, 255), 2654433442, 3090, 520073);
    MixAt(Word(255, 89, 241, 255), 2653842447, 3091, 114767);
  }

  lemma ApartGap(f: int, b: int)
    requires 240 <= f < 256 && 0 <= b < 255 && (f < 244 || b == 0)
    ensures Mix(Word(b, f, 255, 255)) != Mix(Word(255, b, f, 255))
  {
    var w, w' := Word(b, f, 255, 255), Word(255, b, f, 255);
    if f == 241 && b == 89 {
      ApartGapOnce();
    } else if Mix(w) == Mix(w') {
      var q := SameSlotClose(w, w', -1110920960 * f + 1723713713 * b - 1643329359, -40345 * f - 158 * b + 10328229);
      if b == 0 {
        FarGapZero(f, q);
      } else {
        FarGap(f, b / 5, b % 5, q - 2 * (b / 5));
      }
    }
  }

  lemma FarFour(f: int, u: int, v: int, q: int)
    requires 240 <= f < 242 && 0 <= u <= 18 && 0 <= v < 14
    ensures !Close(-1723713713 * f - 315131471 * v - 116873298 * u + 214479104, q)
  {
  }

  lemma FarFourZero(f: int, q: int)
    requires 240 <= f < 256
    ensures !Close(-1723713713 * f + 214479104, q)
  {
  }

  lemma ApartFour(f: int, b: int)
    requires 240 <= f < 256 && 0 <= b < 255 && (f < 242 || b == 0)
    ensures Mix(Word(b, f, 255, 255)) != Mix(Word(f, 255, 255, b))
  {
    var w, w' := Word(b, f, 255, 255), Word(f, 255, 255, b);
    if Mix(w) == Mix(w') {
      var q := SameSlotClose(w, w', -1723713713 * f - 315131471 * b + 214479104, 158 * f - 10368889 * b + 2644026526);
      if b == 0 {
        FarFourZero(f, q);
      } else {
        FarFour(f, b / 14, b % 14, q + (b / 14));
      }
    }
  }

  lemma FarThree(b: int, q: int)
    requires 0 <= b < 255
    ensures !Close(-712607311 * b - 95778272496, q)
  {
  }

  lemma ApartThree(b: int)
    requires 0 <= b < 255
    ensures Mix(Word(b, 240, 255, b)) != Mix(Word(240, 255, b, 240))
  {
    var w, w' := Word(b, 240, 255, b), Word(240, 255, b, 240);
    if Mix(w) == Mix(w') {
      var q := SameSlotClose(w, w', -712607311 * b - 95778272496, 10328387 * b - 2478207639);
      FarThree(b, q);
    }
  }

  lemma FarThreeGap(b: int, q: int)
    requires 0 <= b < 255
    ensures !Close(398313649 * b - 265294792527, q)
  {
  }

  lemma ApartThreeGap(b: int)
    requires 0 <= b < 255
    ensures Mix(Word(b, 240, 255, b)) != Mix(Word(255, b, 240, 255))
  {
    var w, w' := Word(b, 240, 255, b), Word(255, b, 240, 255);
    if Mix(w) == Mix(w') {
      var q := SameSlotClose(w, w', 398313649 * b - 265294792527, 10368732 * b - 2643421443);
      FarThreeGap(b, q);
    }
  }

  /** The word at a place of the repeated header. */
  function WordAt(f: int, b: int, h: nat, place: nat): int {
    Word(HeaderByte(f, b, h, place), HeaderByte(f, b, h, place + 1),
         HeaderByte(f, b, h, place + 2), HeaderByte(f, b, h, place + 3))
  }

  /** The word at the closing byte of a short header shares its slot with no other word of the repetition. */
  lemma ClosingWordAlone(f: int, b: int, h: nat, place: nat, last: nat)
    requires ShortHeader(f, b, h) && place < last == h - 1
    ensures Mix(WordAt(f, b, h, last)) != Mix(WordAt(f, b, h, place))
  {
    if h == 3 {
      ApartThree(b);
      ApartThreeGap(b);
    } else if place == h - 2 {
      ApartGap(f, b);
    } else if place == h - 3 {
      ApartTail(f, b);
    } else if h == 4 {
      ApartFour(f, b);
    } else {
      ApartHead(f, b);
      ApartRun(f, b);
      ApartRunEnd(f, b);
    }
  }

  // ------------------------------------------------- a repetition is always found

  /** The slot of four bytes that are known one by one. */
  lemma SlotOfBytes(x: seq<byte>, p: nat, f: int, b: int, h: nat, place: nat)
    requires p + 4 <= |x|
    requires x[p] == HeaderByte(f, b, h, place) && x[p + 1] == HeaderByte(f, b, h, place + 1)
    requires x[p + 2] == HeaderByte(f, b, h, place + 2) && x[p + 3] == HeaderByte(f, b, h, place + 3)
    ensures Slot(x, p) == Mix(WordAt(f, b, h, place))
  {
  }

  lemma SlotAt(x: seq<byte>, h: nat, n: nat, p: nat, place: nat)
    requires Header(x, h) && 3 <= h && Repeats(x, h, n) && p + 4 <= h + n && place == p % h
    ensures Slot(x, p) == Mix(WordAt(x[0], x[h - 1], h, place))
  {
    ByteAt(x, h, n, p, 0, place);
    ByteAt(x, h, n, p, 1, place + 1);
    ByteAt(x, h, n, p, 2, place + 2);
    ByteAt(x, h, n, p, 3, place + 3);
    SlotOfBytes(x, p, x[0], x[h - 1], h, place);
  }

  /** Whatever the table holds at `e`, at `p` it still remembers `g`, where the same four bytes stand. */
  ghost predicate Recalls(x: seq<byte>, e: nat, g: nat, p: nat) {
    && e <= g < p && 0 < g && p + LAST_LITERALS < |x| && p - g < MAX_OFFSET
    && Agrees(x, g, p, MIN_MATCH) && Slot(x, g) == Slot(x, p)
    && forall j :: g < j < p ==> Slot(x, j) != Slot(x, p)
  }

  lemma PeriodAgrees(x: seq<byte>, h: nat, n: nat, g: nat, p: nat)
    requires 1 <= h && Repeats(x, h, n) && g + 4 <= n && p == g + h
    ensures Agrees(x, g, p, MIN_MATCH) && Slot(x, g) == Slot(x, p)
  {
    assert x[g] == x[h..][g] && x[g + 1] == x[h..][g + 1] && x[g + 2] == x[h..][g + 2] && x[g + 3] == x[h..][g + 3];
    FourAgree(x, g, p);
  }

  /** Between two closing bytes of a short header no slot is that of the closing word. */
  lemma SlotsBetween(x: seq<byte>, h: nat, n: nat, g: nat, j: nat, p: nat)
    requires Begins(x, h, n) && h <= 6 && g % h == h - 1 && g < j < p == g + h && p + 4 <= h + n
    ensures Slot(x, j) != Slot(x, p)
  {
    var f, b, place, last := x[0], x[h - 1], j - g - 1, h - 1;
    Arith.ModAdd(g, h, h);
    Arith.ModAdd(g, j - g, h);
    SlotAt(x, h, n, p, last);
    SlotAt(x, h, n, j, place);
    ClosingWordAlone(f, b, h, place, last);
  }

  /** The next closing byte. */
  lemma NextClosing(e: nat, h: nat) returns (g: nat)
    requires 3 <= h
    ensures e <= g < e + h && 2 <= g && g % h == h - 1
  {
    var r := e % h;
    g := e + (h - 1 - r);
    Arith.ModAdd(e, h - 1 - r, h);
    if e < h {
      Arith.DivModUnique(e, h, 0, e);
    }
  }

  /** A short header: the closing byte and the three after it, one period later. */
  lemma ShortRecall(x: seq<byte>, h: nat, n: nat, e: nat) returns (g: nat, p: nat)
    requires Begins(x, h, n) && h <= 6 && e + 2 * h + 4 <= h + n
    ensures Recalls(x, e, g, p) && p < e + 2 * h
  {
    g := NextClosing(e, h);
    p := g + h;
    PeriodAgrees(x, h, n, g, p);
    forall j | g < j < p
      ensures Slot(x, j) != Slot(x, p)
    {
      SlotsBetween(x, h, n, g, j, p);
    }
  }

  lemma RunByte(x: seq<byte>, h: nat, n: nat, g: nat, i: nat, place: nat)
    requires Begins(x, h, n) && g + i < h + n && i <= 4 && place == g % h && 1 <= place && place + 4 <= h - 2
    ensures x[g + i] == 255
  {
    ByteAt(x, h, n, g, i, place + i);
  }

  /** Five bytes of 255 in a row: four of them, one place later. */
  lemma RunRecalls(x: seq<byte>, h: nat, n: nat, e: nat, g: nat, p: nat, place: nat)
    requires Begins(x, h, n) && e <= g && 1 <= g && p == g + 1 && p + LAST_LITERALS < |x| && g + 5 <= h + n
    requires place == g % h && 1 <= place && place + 4 <= h - 2
    ensures Recalls(x, e, g, p)
  {
    RunByte(x, h, n, g, 0, place);
    RunByte(x, h, n, g, 1, place);
    RunByte(x, h, n, g, 2, place);
    RunByte(x, h, n, g, 3, place);
    RunByte(x, h, n, g, 4, place);
    FourAgree(x, g, p);
  }

  /** The next place from which on there are five bytes of 255. */
  lemma NextRun(e: nat, h: nat) returns (g: nat, place: nat)
    requires 7 <= h
    ensures e <= g <= e + 6 && 1 <= g && place == g % h && 1 <= place && place + 4 <= h - 2
  {
    var r := e % h;
    place := 1;
    if r == 0 {
      g := e + 1;
      Arith.ModAdd(e, 1, h);
    } else if r + 4 <= h - 2 {
      g, place := e, r;
      Arith.DivModUnique(0, h, 0, 0);
    } else {
      var f := e + (h - r);
      g := f + 1;
      Arith.ModAdd(e, h - r, h);
      Arith.ModAdd(f, 1, h);
    }
  }

  /** A long header holds such a run, and one begins at most six places on. */
  lemma LongRecall(x: seq<byte>, h: nat, n: nat, e: nat) returns (g: nat, p: nat)
    requires Begins(x, h, n) && h >= 7 && e + 2 * h + 4 <= h + n
    ensures Recalls(x, e, g, p) && p <= e + 7
  {
    var place;
    g, place := NextRun(e, h);
    p := g + 1;
    RunRecalls(x, h, n, e, g, p, place);
  }

  lemma RecallAt(x: seq<byte>, h: nat, n: nat, e: nat) returns (g: nat, p: nat)
    requires Begins(x, h, n) && e + 2 * h + 4 <= h + n
    ensures Recalls(x, e, g, p) && p - e < 2 * h && p - e < 15
  {
    if h <= 6 {
      g, p := ShortRecall(x, h, n, e);
    } else {
      g, p := LongRecall(x, h, n, e);
    }
  }

  lemma StampSmall(ip: nat)
    requires ip < U32
    ensures Stamp(ip) == ip
  {
  }

  /** One iteration before `p` without a match keeps what the table remembers; at `p` there is a match. */
  lemma StepRecalls(x: seq<byte>, ip: nat, e: nat, table: Table, g: nat, p: nat)
    requires |x| < U32 && e <= ip <= p && Recalls(x, e, g, p) && (ip > g ==> table[Slot(x, p)] == g)
    ensures
      var s := Advance(x, ip, e, table);
      if s.found.None? then
        ip < p && s.ip == ip + 1 && s.anchor == e && (ip + 1 > g ==> s.table[Slot(x, p)] == g)
      else
        s.ip == s.anchor == ip + s.found.value.matchLen && |s.found.value.literals| == ip - e
  {
    StampSmall(ip);
    assert ip == p ==> IsCandidate(x, table[Slot(x, ip)], ip);
    assert g < ip < p ==> Slot(x, ip) != Slot(x, p);
  }

  /** A block that begins with `q` and goes on as the match finder would from position `next`. */
  ghost predicate GoesOn(x: seq<byte>, b: Block, q: Sequence, next: nat, table: Table)
    requires next <= |x|
  {
    var rest := GreedyBlock(x, next, next, table);
    b == Block([q] + rest.matches, rest.tail)
  }

  /** One iteration on the way to `p`: a match, or one step closer with what the table remembers. */
  lemma OneIteration(x: seq<byte>, ip: nat, e: nat, table: Table, b: Block, g: nat, p: nat)
    returns (hit: bool, q: Sequence, next: nat, table': Table)
    requires |x| < U32 && e <= ip <= p && Recalls(x, e, g, p) && (ip > g ==> table[Slot(x, p)] == g)
    requires b == GreedyBlock(x, ip, e, table)
    ensures hit ==>
      Encodable(q) && |q.literals| == ip - e && next == ip + q.matchLen <= |x| && GoesOn(x, b, q, next, table')
    ensures !hit ==> ip < next <= p && b == GreedyBlock(x, next, e, table') && (next > g ==> table'[Slot(x, p)] == g)
  {
    var s := Advance(x, ip, e, table);
    StepRecalls(x, ip, e, table, g, p);
    GreedyUnfolds(x, ip, e, table);
    hit, next, table' := s.found.Some?, s.ip, s.table;
    q := if hit then s.found.value else Sequence([], 0, 0);
  }

  /** From any table, the match finder emits a match by the time it reaches `p`. */
  lemma {:induction false} MatchByThen(x: seq<byte>, ip: nat, e: nat, table: Table, b: Block, g: nat, p: nat)
    returns (q: Sequence, next: nat, table': Table)
    requires |x| < U32 && e <= ip <= p && Recalls(x, e, g, p) && (ip > g ==> table[Slot(x, p)] == g)
    requires b == GreedyBlock(x, ip, e, table)
    ensures Encodable(q) && |q.literals| <= p - e && next == e + |q.literals| + q.matchLen <= |x|
    ensures GoesOn(x, b, q, next, table')
    decreases p - ip
  {
    var hit;
    hit, q, next, table' := OneIteration(x, ip, e, table, b, g, p);
    if !hit {
      q, next, table' := MatchByThen(x, next, e, table', b, g, p);
    }
  }

  // --------------------------------------------------------- and pays off

  /** `c` bytes saved make up for `ahead` bytes of input, at one byte in `d`. */
  predicate Covers(d: nat, c: nat, ahead: nat) {
    ahead <= d || (c > 0 && Covers(d, c - 1, ahead - d))
  }

  lemma {:induction false} CoversLess(d: nat, c: nat, ahead: nat, less: nat)
    requires Covers(d, c, ahead) && less <= ahead
    ensures Covers(d, c, less)
  {
    if ahead <= d || less <= d {
    } else {
      CoversLess(d, c - 1, ahead - d, less - d);
    }
  }

  /** A match that saves one byte and `k` more makes up for `d` bytes and twice `k` more. */
  lemma {:induction false} CoversMore(d: nat, c: nat, ahead: nat, k: nat, c': nat, more: nat)
    requires 2 <= d && Covers(d, c, ahead) && more <= ahead + d + 2 * k && c' == c + 1 + k
    ensures Covers(d, c', more)
    decreases k
  {
    if more <= d {
    } else if k == 0 {
      CoversLess(d, c, ahead, more - d);
    } else {
      CoversMore(d, c, ahead, k - 1, c' - 1, more - d);
    }
  }

  lemma {:induction false} CoversAtLeast(d: nat, c: nat, ahead: nat)
    requires Covers(d, c, ahead)
    ensures ahead <= (c + 1) * d
  {
    if ahead <= d {
      Arith.MulMono(1, c + 1, d);
    } else {
      CoversAtLeast(d, c - 1, ahead - d);
      assert (c + 1) * d == c * d + d;
    }
  }

  /** A sequence with few literals saves bytes, and more the longer its match. */
  lemma SequenceSaves(q: Sequence) returns (k: nat)
    requires q.matchLen >= MIN_MATCH && |q.literals| < 15
    ensures |PrintSequence(q)| + 1 + k == |q.literals| + q.matchLen <= |q.literals| + 4 + 2 * k
  {
    var more := q.matchLen - MIN_MATCH;
    ExtensionSize(more);
    assert |PrintSequence(q)| == |q.literals| + 3 + |Extension(more)|;
    k := more - |Extension(more)|;
  }

  /** The bound on a stream of `n` input bytes without any match. */
  function Bound(n: nat): nat {
    n + n / 255 + 2
  }

  lemma GreedySize(x: seq<byte>, e: nat, table: Table, left: nat)
    requires e + left == |x|
    ensures |Print(GreedyBlock(x, e, e, table))| <= Bound(left)
  {
    var b := GreedyBlock(x, e, e, table);
    GreedyExpands(x, e, e, table);
    ExpandMatchesLength(b.matches, x[..e]);
    PrintSize(b);
  }

  /** What is left of the repetitive beginning, less the two periods that a match may take. */
  function Ahead(h: nat, n: nat, e: nat): nat {
    if e + 2 * h + 4 <= h + n then h + n - (e + 2 * h + 4) else 0
  }

  /** In the beginning a match follows after few literals. */
  lemma MatchAhead(x: seq<byte>, h: nat, n: nat, e: nat, table: Table, size: nat)
    returns (k: nat, next: nat, table': Table, rest: nat)
    requires |x| < U32 && Begins(x, h, n) && e + 2 * h + 4 <= h + n
    requires size == |Print(GreedyBlock(x, e, e, table))|
    ensures e < next <= |x| && next - e <= 2 * h + 4 + 2 * k
    ensures rest == |Print(GreedyBlock(x, next, next, table'))|
    ensures size + 1 + k == next - e + rest
  {
    var b := GreedyBlock(x, e, e, table);
    var g, p := RecallAt(x, h, n, e);
    var q;
    q, next, table' := MatchByThen(x, e, e, table, b, g, p);
    var b' := GreedyBlock(x, next, next, table');
    PrintCons(q, b');
    k := SequenceSaves(q);
    rest := |Print(b')|;
  }

  /** While the beginning lasts, every `d` bytes of it save at least one. */
  lemma {:induction false} BeginningSaves(x: seq<byte>, h: nat, n: nat, d: nat, e: nat, table: Table,
                                          size: nat, ahead: nat, left: nat) returns (c: nat)
    requires |x| < U32 && Begins(x, h, n) && d == 2 * h + 4 && e + left == |x|
    requires size == |Print(GreedyBlock(x, e, e, table))| && ahead == Ahead(h, n, e)
    ensures size + c <= Bound(left) && Covers(d, c, ahead)
    decreases left
  {
    if e + 2 * h + 4 <= h + n {
      var k, next, table', rest := MatchAhead(x, h, n, e, table, size);
      var ahead', left' := Ahead(h, n, next), |x| - next;
      var c' := BeginningSaves(x, h, n, d, next, table', rest, ahead', left');
      c := c' + 1 + k;
      CoversMore(d, c', ahead', k, c, ahead);
    } else {
      GreedySize(x, e, table, left);
      c := 0;
    }
  }

  // ---------------------------------------------------------- the law of one page

  /** On a page the beginning saves more than the rest can cost. */
  lemma PageSaves(h: nat, n: nat, size: nat, len: nat, c: nat, d: nat, ahead: nat)
    requires 3 <= h && n >= Announced(h, 0) && len <= PAGE_SIZE && d == 2 * h + 4 && ahead == Ahead(h, n, 0)
    requires size + c <= Bound(len) && Covers(d, c, ahead)
    ensures size < len
  {
    CoversAtLeast(d, c, ahead);
    if c <= 18 {
      Arith.MulMono(c + 1, 19, d);
    }
  }

  /** The match finder shortens every stream of at most a page that decodes to itself. */
  lemma SelfDecodingShrinks(x: seq<byte>)
    requires x != [] && |x| <= PAGE_SIZE && Decode(x) == Some(x)
    ensures |Emitted(x)| < |x|
  {
    var h, n := SelfDecodingBegins(x);
    var d, ahead := 2 * h + 4, Ahead(h, n, 0);
    var c := BeginningSaves(x, h, n, d, 0, EMPTY_TABLE, |Emitted(x)|, ahead, |x|);
    PageSaves(h, n, |Emitted(x)|, |x|, c, d, ahead);
  }

  lemma DecodesEmpty()
    ensures Decode([]) == Some([])
  {
  }

  /** For every input of at most a page, and for every longer one whose first
      literal length would need at most one extension byte: the round trip holds
      exactly when the result is shorter, or there was nothing to compress. */
  lemma RoundTripIffShorter(input: seq<byte>)
    requires |input| <= PAGE_SIZE || input[0] < 240 || input[1] < 255
    ensures Decode(Compressed(input)) == Some(input) <==> input == [] || |Compressed(input)| < |input|
  {
    CompressedRoundTrip(input);
    if input == [] {
      DecodesEmpty();
    } else if Compressed(input) == input && Decode(input) == Some(input) {
      if |input| <= PAGE_SIZE {
        LongHeader(input);
        SelfDecodingShrinks(input);
      } else {
        NoSelfDecoding(input);
      }
    }
  }
}
