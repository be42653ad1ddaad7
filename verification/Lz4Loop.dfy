/** Inputs that the LZ4 compressor of src/zram.rs returns unchanged although they are streams.

    Longer than a page, a stream that decodes to itself need not be shortened.
    The inputs here begin like the stream of module Lz4Page and go on with forty
    bytes over and over.  Once the output is ahead of the input by the length of
    a header, literals are copied onto themselves, so most of these bytes are
    free.  They are chosen such that every second word shares its slot in the
    hash table with the word after it: whenever the match finder looks a word
    up, it finds the neighbour instead, and sees none of the repetitions.
 */
module Lz4Loop {
  import opened Prelude
  import opened Lz4Format
  import opened Lz4Codec
  import opened Lz4Page
  import Arith
  import Seqs

  const PERIOD: nat := 40

  // ------------------------------------------------------------ hiding cycles

  type Cycle = c: seq<byte> | |c| == PERIOD witness Filled<byte>(0, PERIOD)

  function Around(c: Cycle, i: nat): byte {
    c[i % PERIOD]
  }

  function Arounds(c: Cycle, start: nat, n: nat): (r: seq<byte>)
    ensures |r| == n && forall i :: 0 <= i < n ==> r[i] == Around(c, start + i)
  {
    seq<byte>(n, i requires 0 <= i => Around(c, start + i))
  }

  /** The slot of the four bytes from place `i` on. */
  function SlotAround(c: Cycle, i: nat): nat {
    Mix(Word(Around(c, i), Around(c, i + 1), Around(c, i + 2), Around(c, i + 3)))
  }

  /** The bytes of the beginning. */
  predicate Early(b: int) {
    b in {240, 255, 0, 12, 194, 254}
  }

  /** A cycle that begins with a header and ends with an offset, repeats no byte,
      brings new bytes in between, and hides each word behind its neighbour. */
  ghost predicate Hides(c: Cycle) {
    && c[0] == 240 && c[1] == 21 && c[38] == 40 && c[39] == 0
    && (forall r :: 0 <= r < PERIOD ==> c[r] != 255 && c[r] != 254)
    && (forall r :: 1 <= r < 39 ==> !Early(c[r]))
    && (forall r, q :: 0 <= r < q < PERIOD ==> c[r] != c[q])
    && (forall r: nat :: r < PERIOD && r % 2 == 0 ==> SlotAround(c, r) == SlotAround(c, r + 1))
  }

  // -------------------------------------------------------- there is such a cycle

  function Letter(i: int): byte {
    if i == 0 then 240 else if i == 1 then 21 else if i == 2 then 54
    else if i == 3 then 126 else if i == 4 then 71 else if i == 5 then 118
    else if i == 6 then 202 else if i == 7 then 225 else if i == 8 then 2
    else if i == 9 then 28 else if i == 10 then 220 else if i == 11 then 48
    else if i == 12 then 38 else if i == 13 then 229 else if i == 14 then 162
    else if i == 15 then 73 else if i == 16 then 145 else if i == 17 then 80
    else if i == 18 then 173 else if i == 19 then 183 else if i == 20 then 59
    else if i == 21 then 238 else if i == 22 then 168 else if i == 23 then 241
    else if i == 24 then 248 else if i == 25 then 242 else if i == 26 then 170
    else if i == 27 then 139 else if i == 28 then 87 else if i == 29 then 53
    else if i == 30 then 252 else if i == 31 then 55 else if i == 32 then 144
    else if i == 33 then 81 else if i == 34 then 219 else if i == 35 then 222
    else if i == 36 then 233 else if i == 37 then 158 else if i == 38 then 40
    else 0
  }

  const CYCLE: Cycle := seq<byte>(PERIOD, i => Letter(i))

  /** Where a byte stands in the cycle. */
  function Place(b: int): nat {
    if b == 240 then 0 else if b == 21 then 1 else if b == 54 then 2
    else if b == 126 then 3 else if b == 71 then 4 else if b == 118 then 5
    else if b == 202 then 6 else if b == 225 then 7 else if b == 2 then 8
    else if b == 28 then 9 else if b == 220 then 10 else if b == 48 then 11
    else if b == 38 then 12 else if b == 229 then 13 else if b == 162 then 14
    else if b == 73 then 15 else if b == 145 then 16 else if b == 80 then 17
    else if b == 173 then 18 else if b == 183 then 19 else if b == 59 then 20
    else if b == 238 then 21 else if b == 168 then 22 else if b == 241 then 23
    else if b == 248 then 24 else if b == 242 then 25 else if b == 170 then 26
    else if b == 139 then 27 else if b == 87 then 28 else if b == 53 then 29
    else if b == 252 then 30 else if b == 55 then 31 else if b == 144 then 32
    else if b == 81 then 33 else if b == 219 then 34 else if b == 222 then 35
    else if b == 233 then 36 else if b == 158 then 37 else if b == 40 then 38
    else 39
  }

  lemma LowPlace(r: nat)
    requires r < 20
    ensures Place(CYCLE[r]) == r && CYCLE[r] != 255 && CYCLE[r] != 254 && (r != 0 ==> !Early(CYCLE[r]))
  {
  }

  lemma HighPlace(r: nat)
    requires 20 <= r < PERIOD
    ensures Place(CYCLE[r]) == r && CYCLE[r] != 255 && CYCLE[r] != 254 && (r != 39 ==> !Early(CYCLE[r]))
  {
  }

  /** Two neighbouring words in the same slot, with their products written out. */
  lemma SameSlot(c: Cycle, r: nat, r': nat, w: seq<int>, q: int, q': int, slot: nat, low: nat, low': nat)
    requires |w| == 5 && slot < TABLE_SIZE && low < 0x10_0000 && low' < 0x10_0000 && r' == r + 1
    requires Around(c, r) == w[0] && Around(c, r + 1) == w[1] && Around(c, r + 2) == w[2]
    requires Around(c, r + 3) == w[3] && Around(c, r + 4) == w[4]
    requires Word(w[0], w[1], w[2], w[3]) * HASH_FACTOR == q * U32 + slot * 0x10_0000 + low
    requires Word(w[1], w[2], w[3], w[4]) * HASH_FACTOR == q' * U32 + slot * 0x10_0000 + low'
    ensures SlotAround(c, r) == SlotAround(c, r')
  {
    MixAt(Word(w[0], w[1], w[2], w[3]), q, slot, low);
    MixAt(Word(w[1], w[2], w[3], w[4]), q', slot, low');
  }

  /** The cycle byte by byte. */
  predicate Spelled(c: Cycle) {
    && c[0] == 240 && c[1] == 21 && c[2] == 54 && c[3] == 126 && c[4] == 71
    && c[5] == 118 && c[6] == 202 && c[7] == 225 && c[8] == 2 && c[9] == 28
    && c[10] == 220 && c[11] == 48 && c[12] == 38 && c[13] == 229 && c[14] == 162
    && c[15] == 73 && c[16] == 145 && c[17] == 80 && c[18] == 173 && c[19] == 183
    && c[20] == 59 && c[21] == 238 && c[22] == 168 && c[23] == 241 && c[24] == 248
    && c[25] == 242 && c[26] == 170 && c[27] == 139 && c[28] == 87 && c[29] == 53
    && c[30] == 252 && c[31] == 55 && c[32] == 144 && c[33] == 81 && c[34] == 219
    && c[35] == 222 && c[36] == 233 && c[37] == 158 && c[38] == 40 && c[39] == 0
  }

  lemma CycleSpelled()
    ensures Spelled(CYCLE)
  {
  }

  lemma PairsFrom0(c: Cycle, r: nat, r': nat)
    requires Spelled(c) && 0 <= r < 8 && r % 2 == 0 && r' == r + 1
    ensures SlotAround(c, r) == SlotAround(c, r')
  {
    if r == 0 {
      SameSlot(c, r, r', [240, 21, 54, 126, 71], 1308670759, 741303162, 2725, 236272, 414085);
    } else if r == 2 {
      SameSlot(c, r, r', [54, 126, 71, 118, 202], 1226424699, 2099306439, 58, 1034582, 261150);
    } else if r == 4 {
      SameSlot(c, r, r', [71, 118, 202, 225, 2], 2341200596, 29883094, 162, 284183, 573846);
    } else {
      SameSlot(c, r, r', [202, 225, 2, 28, 220], 290445641, 2282290284, 3729, 825002, 87697);
    }
  }

  lemma PairsFrom8(c: Cycle, r: nat, r': nat)
    requires Spelled(c) && 8 <= r < 16 && r % 2 == 0 && r' == r + 1
    ensures SlotAround(c, r) == SlotAround(c, r')
  {
    if r == 8 {
      SameSlot(c, r, r', [2, 28, 220, 48, 38], 506621901, 395996800, 285, 675682, 355164);
    } else if r == 10 {
      SameSlot(c, r, r', [220, 48, 38, 229, 162], 2376022601, 1689041467, 3132, 246812, 792368);
    } else if r == 12 {
      SameSlot(c, r, r', [38, 229, 162, 73, 145], 763526765, 1506471531, 2417, 615750, 712021);
    } else {
      SameSlot(c, r, r', [162, 73, 145, 80, 173], 835395829, 1797081181, 736, 1014530, 980089);
    }
  }

  lemma PairsFrom16(c: Cycle, r: nat, r': nat)
    requires Spelled(c) && 16 <= r < 24 && r % 2 == 0 && r' == r + 1
    ensures SlotAround(c, r) == SlotAround(c, r')
  {
    if r == 16 {
      SameSlot(c, r, r', [145, 80, 173, 183, 59], 1904526661, 619204048, 2929, 15681, 631888);
    } else if r == 18 {
      SameSlot(c, r, r', [173, 183, 59, 238, 168], 2470214512, 1751622743, 724, 377757, 116871);
    } else if r == 20 {
      SameSlot(c, r, r', [59, 238, 168, 241, 248], 2505744691, 2581272708, 2161, 235979, 19086);
    } else {
      SameSlot(c, r, r', [168, 241, 248, 242, 170], 2519354401, 1772552475, 1078, 1015080, 984993);
    }
  }

  lemma PairsFrom24(c: Cycle, r: nat, r': nat)
    requires Spelled(c) && 24 <= r < 32 && r % 2 == 0 && r' == r + 1
    ensures SlotAround(c, r) == SlotAround(c, r')
  {
    if r == 24 {
      SameSlot(c, r, r', [248, 242, 170, 139, 87], 1448199699, 907750432, 2581, 79224, 758610);
    } else if r == 26 {
      SameSlot(c, r, r', [170, 139, 87, 53, 252], 553097053, 2615120737, 769, 60042, 997915);
    } else if r == 28 {
      SameSlot(c, r, r', [87, 53, 252, 55, 144], 580504248, 1495387710, 292, 524327, 880037);
    } else {
      SameSlot(c, r, r', [252, 55, 144, 81, 219], 845721423, 2274090441, 485, 53564, 1029383);
    }
  }

  lemma PairsFrom32(c: Cycle, r: nat, r': nat)
    requires Spelled(c) && 32 <= r < 40 && r % 2 == 0 && r' == r + 1
    ensures SlotAround(c, r) == SlotAround(c, r')
  {
    if r == 32 {
      SameSlot(c, r, r', [144, 81, 219, 222, 233], 2310776677, 2424977769, 594, 29840, 388097);
    } else if r == 34 {
      SameSlot(c, r, r', [219, 222, 233, 158, 40], 1647757140, 421192138, 1873, 366699, 761982);
    } else if r == 36 {
      SameSlot(c, r, r', [233, 158, 40, 0, 240], 1645281, 2488539952, 1044, 65561, 49982);
    } else {
      SameSlot(c, r, r', [40, 0, 240, 21, 54], 227467542, 560808588, 1337, 721832, 716800);
    }
  }

  lemma AllPairs(c: Cycle, r: nat, r': nat)
    requires Spelled(c) && r < PERIOD && r % 2 == 0 && r' == r + 1
    ensures SlotAround(c, r) == SlotAround(c, r')
  {
    if r < 8 {
      PairsFrom0(c, r, r');
    } else if r < 16 {
      PairsFrom8(c, r, r');
    } else if r < 24 {
      PairsFrom16(c, r, r');
    } else if r < 32 {
      PairsFrom24(c, r, r');
    } else {
      PairsFrom32(c, r, r');
    }
  }

  predicate Placed(c: Cycle, r: nat)
    requires r < PERIOD
  {
    Place(c[r]) == r && c[r] != 255 && c[r] != 254 && (1 <= r < 39 ==> !Early(c[r]))
  }

  lemma PlacedHides(c: Cycle)
    requires Spelled(c) && forall r: nat :: r < PERIOD ==> Placed(c, r)
    ensures Hides(c)
  {
    forall r, q | 0 <= r < q < PERIOD
      ensures c[r] != c[q]
    {
      assert Placed(c, r) && Placed(c, q);
    }
    forall r | 0 <= r < PERIOD
      ensures c[r] != 255 && c[r] != 254 && (1 <= r < 39 ==> !Early(c[r]))
    {
      assert Placed(c, r);
    }
    forall r: nat | r < PERIOD && r % 2 == 0
      ensures SlotAround(c, r) == SlotAround(c, r + 1)
    {
      AllPairs(c, r, r + 1);
    }
  }

  lemma CycleHides()
    ensures Hides(CYCLE)
  {
    forall r: nat | r < PERIOD
      ensures Placed(CYCLE, r)
    {
      if r < 20 {
        LowPlace(r);
      } else {
        HighPlace(r);
      }
    }
    CycleSpelled();
    PlacedHides(CYCLE);
  }

  // ------------------------------------------------------- going round a cycle

  lemma SameResidueNext(i: nat, j: nat)
    requires i % PERIOD == j % PERIOD
    ensures (i + 1) % PERIOD == (j + 1) % PERIOD
  {
    Arith.ModAdd(i, 1, PERIOD);
    Arith.ModAdd(j, 1, PERIOD);
  }

  lemma SlotAgain(c: Cycle, i: nat, j: nat)
    requires i % PERIOD == j % PERIOD
    ensures SlotAround(c, i) == SlotAround(c, j)
  {
    SameResidueNext(i, j);
    SameResidueNext(i + 1, j + 1);
    SameResidueNext(i + 2, j + 2);
  }

  lemma SameResidueOn(i: nat, j: nat, k: nat)
    requires i % PERIOD == j % PERIOD
    ensures (i + k) % PERIOD == (j + k) % PERIOD
  {
    var q := j / PERIOD - i / PERIOD;
    assert j + k == i + k + q * PERIOD;
    var d, r := (i + k) / PERIOD, (i + k) % PERIOD;
    Arith.DivModUnique(j + k, PERIOD, d + q, r);
  }

  lemma AroundsJoin(c: Cycle, a: nat, n: nat, b: nat, m: nat, k: nat)
    requires (a + n) % PERIOD == b % PERIOD && k == n + m
    ensures Arounds(c, a, n) + Arounds(c, b, m) == Arounds(c, a, k)
  {
    var more := Arounds(c, b, m);
    forall i | 0 <= i < m
      ensures more[i] == Around(c, a + n + i)
    {
      SameResidueOn(b, a + n, i);
    }
  }

  /** The other place of the last forty whose word has the slot of the word at place `i`. */
  function Hider(i: nat): nat
    requires i >= PERIOD
  {
    if i % 2 == 1 then i - 1 else i - 39
  }

  lemma EvenResidue(i: nat, j: nat) returns (r: nat, r': nat)
    requires i % 2 == 0 && j == i + 1
    ensures r % 2 == 0 && r' == r + 1 < PERIOD && i % PERIOD == r % PERIOD && j % PERIOD == r' % PERIOD
  {
    var k := i / 2;
    r := 2 * (k % 20);
    r' := r + 1;
    Arith.DivModUnique(i, PERIOD, k / 20, r);
    Arith.DivModUnique(j, PERIOD, k / 20, r');
    Arith.DivModUnique(r, PERIOD, 0, r);
    Arith.DivModUnique(r', PERIOD, 0, r');
  }

  lemma EvenNeighbours(c: Cycle, i: nat, j: nat)
    requires Hides(c) && i % 2 == 0 && j == i + 1
    ensures SlotAround(c, i) == SlotAround(c, j)
  {
    var r, r' := EvenResidue(i, j);
    assert SlotAround(c, r) == SlotAround(c, r + 1);
    SlotAgain(c, i, r);
    SlotAgain(c, j, r');
  }

  lemma OddHider(c: Cycle, i: nat, h: nat)
    requires Hides(c) && i % 2 == 1 && h == i - 1
    ensures SlotAround(c, h) == SlotAround(c, i)
  {
    Arith.DivModUnique(h, 2, i / 2, 0);
    EvenNeighbours(c, h, i);
  }

  lemma EvenHider(c: Cycle, i: nat, h: nat)
    requires Hides(c) && i % 2 == 0 && i >= PERIOD && h == i - 39
    ensures SlotAround(c, h) == SlotAround(c, i)
  {
    var j := i + 1;
    EvenNeighbours(c, i, j);
    Arith.DivModStep(j, PERIOD);
    SlotAgain(c, h, j);
  }

  lemma HiderShares(c: Cycle, i: nat, h: nat)
    requires Hides(c) && i >= PERIOD && h == Hider(i)
    ensures i - PERIOD < h < i && SlotAround(c, h) == SlotAround(c, i)
  {
    if i % 2 == 1 {
      OddHider(c, i, h);
    } else {
      EvenHider(c, i, h);
    }
  }

  // ---------------------------------------------------------------- the inputs

  const TWELVE: seq<byte> := [12, 0, 194, 12, 0, 194, 12, 0, 194, 12, 0, 194]
  const TURN: seq<byte> := [12, 0, 240, 255, 255, 254, 0, 0, 0, 0, 0, 0]

  /** From the first repeated header to the header of the first free literals. */
  const BRIDGE: seq<byte> := (TWELVE + TWELVE[..6]) + (TURN + TURN[..6])

  /** What stands before the cycle begins. */
  const BEGINNING: seq<byte> := Heads(529) + BRIDGE

  const START: nat := 565

  /** The input with `n` whole blocks. */
  function Looped(c: Cycle, n: nat): (x: seq<byte>)
    ensures |x| == 1384 + PERIOD * n
  {
    BEGINNING + Arounds(c, 19, 819 + PERIOD * n)
  }

  lemma LoopedBytes(c: Cycle, n: nat, i: nat)
    requires i < |Looped(c, n)|
    ensures i < 529 ==> Looped(c, n)[i] == Head(i)
    ensures 529 <= i < START ==> Looped(c, n)[i] == BRIDGE[i - 529]
    ensures START <= i ==> Looped(c, n)[i] == Around(c, i - START + 19)
  {
  }

  lemma BridgeBytes(i: nat)
    requires i < |BRIDGE|
    ensures |BRIDGE| == 36 && Early(BRIDGE[i]) && (i >= 33 ==> BRIDGE[i] == 255 || BRIDGE[i] == 254)
  {
  }

  lemma EarlyBytes(c: Cycle, n: nat, i: nat)
    requires i < START
    ensures Early(Looped(c, n)[i]) && (i >= 562 ==> Looped(c, n)[i] == 255 || Looped(c, n)[i] == 254)
  {
    LoopedBytes(c, n, i);
    if i >= 529 {
      BridgeBytes(i - 529);
    }
  }

  // ------------------------------------------------- the match finder finds nothing

  lemma DifferAt(x: seq<byte>, refPos: nat, ip: nat, m: nat, k: nat)
    requires refPos < ip && ip + m <= |x| && k < m && x[refPos + k] != x[ip + k]
    ensures !Agrees(x, refPos, ip, m)
  {
    assert x[refPos..refPos + m][k] == x[refPos + k] && x[ip..ip + m][k] == x[ip + k];
  }

  lemma FirstDiffers(x: seq<byte>, refPos: nat, ip: nat)
    requires refPos < ip && ip + 4 <= |x| && x[refPos] != x[ip]
    ensures !Agrees(x, refPos, ip, MIN_MATCH)
  {
    DifferAt(x, refPos, ip, MIN_MATCH, 0);
  }

  /** Among any three bytes of the cycle one is new. */
  lemma FreshSoon(c: Cycle, i: nat) returns (k: nat)
    requires Hides(c)
    ensures k <= 2 && !Early(Around(c, i + k))
  {
    var r := i % PERIOD;
    if r == 0 {
      k := 1;
      Arith.ModAdd(i, 1, PERIOD);
    } else if r == 39 {
      k := 2;
      Arith.ModAdd(i, 2, PERIOD);
    } else {
      k := 0;
    }
  }

  lemma DistinctPlaces(c: Cycle, i: nat, j: nat)
    requires Hides(c) && j < i < j + PERIOD
    ensures Around(c, i) != Around(c, j)
  {
    Arith.ModDistinct(j, i, PERIOD);
    var r, q := i % PERIOD, j % PERIOD;
    if r < q {
      assert c[r] != c[q];
    } else {
      assert c[q] != c[r];
    }
  }

  lemma FirstByteDiffers(c: Cycle, n: nat, x: seq<byte>, refPos: nat, ip: nat, i: nat)
    requires Hides(c) && x == Looped(c, n) && START <= ip && ip + 4 <= |x| && i == ip - START + 19
    requires 562 <= refPos < ip && (refPos >= START ==> ip < refPos + PERIOD)
    ensures x[refPos] != x[ip]
  {
    LoopedBytes(c, n, ip);
    if refPos >= START {
      LoopedBytes(c, n, refPos);
      DistinctPlaces(c, i, refPos - START + 19);
    } else {
      EarlyBytes(c, n, refPos);
      assert c[i % PERIOD] != 255 && c[i % PERIOD] != 254;
    }
  }

  lemma SomeByteDiffers(c: Cycle, n: nat, x: seq<byte>, refPos: nat, ip: nat, i: nat) returns (k: nat)
    requires Hides(c) && x == Looped(c, n) && START <= ip && ip + 4 <= |x| && i == ip - START + 19 && refPos < 562
    ensures k <= 2 && x[refPos + k] != x[ip + k]
  {
    k := FreshSoon(c, i);
    LoopedBytes(c, n, ip + k);
    EarlyBytes(c, n, refPos + k);
  }

  /** A word of the cycle differs from every word before it but those whole periods back. */
  lemma DifferentWords(c: Cycle, n: nat, x: seq<byte>, refPos: nat, ip: nat)
    requires Hides(c) && x == Looped(c, n) && START <= ip && ip + 4 <= |x|
    requires refPos < ip && (refPos >= START ==> ip < refPos + PERIOD)
    ensures !Agrees(x, refPos, ip, MIN_MATCH)
  {
    var i := ip - START + 19;
    if refPos >= 562 {
      FirstByteDiffers(c, n, x, refPos, ip, i);
      FirstDiffers(x, refPos, ip);
    } else {
      var k := SomeByteDiffers(c, n, x, refPos, ip, i);
      DifferAt(x, refPos, ip, MIN_MATCH, k);
    }
  }

  lemma SlotInCycle(c: Cycle, n: nat, x: seq<byte>, p: nat, i: nat)
    requires x == Looped(c, n) && START <= p && p + 4 <= |x| && i == p - START + 19
    ensures Slot(x, p) == SlotAround(c, i)
  {
    LoopedBytes(c, n, p);
    LoopedBytes(c, n, p + 1);
    LoopedBytes(c, n, p + 2);
    LoopedBytes(c, n, p + 3);
  }

  /** No position of the cycle has been forgotten for an older one. */
  ghost predicate Remembers(x: seq<byte>, ip: nat, table: Table)
    requires ip <= |x|
  {
    forall j :: START <= j < ip ==> j <= table[Slot(x, j)]
  }

  /** What the table has for a word of the cycle is from the last forty positions, or from the beginning. */
  lemma RecentEntry(c: Cycle, n: nat, x: seq<byte>, ip: nat, table: Table, refPos: nat)
    requires Hides(c) && x == Looped(c, n) && START <= ip && ip + 4 <= |x| && Remembers(x, ip, table)
    requires refPos == table[Slot(x, ip)] && START <= refPos < ip
    ensures ip < refPos + PERIOD
  {
    if ip >= START + PERIOD {
      var i := ip - START + 19;
      var h := Hider(i);
      var p := h - 19 + START;
      HiderShares(c, i, h);
      SlotInCycle(c, n, x, ip, i);
      SlotInCycle(c, n, x, p, h);
      assert p <= table[Slot(x, p)];
    }
  }

  lemma NoCandidate(c: Cycle, n: nat, x: seq<byte>, ip: nat, table: Table, refPos: nat)
    requires Hides(c) && x == Looped(c, n) && START <= ip && ip + 4 <= |x| && Remembers(x, ip, table)
    requires refPos == table[Slot(x, ip)]
    ensures !IsCandidate(x, refPos, ip)
  {
    if refPos < ip {
      if refPos >= START {
        RecentEntry(c, n, x, ip, table, refPos);
      }
      DifferentWords(c, n, x, refPos, ip);
    }
  }

  lemma RemembersNext(x: seq<byte>, ip: nat, table: Table, slot: nat)
    requires ip < |x| && ip < U32 && Remembers(x, ip, table) && slot == Slot(x, ip)
    ensures Remembers(x, ip + 1, table[slot := Stamp(ip)])
  {
    StampSmall(ip);
    forall j | START <= j < ip + 1
      ensures j <= table[slot := Stamp(ip)][Slot(x, j)]
    {
    }
  }

  /** One iteration in the cycle finds nothing and remembers where it looked. */
  lemma OneMiss(c: Cycle, n: nat, x: seq<byte>, ip: nat, anchor: nat, table: Table) returns (next: nat, table': Table)
    requires Hides(c) && x == Looped(c, n) && |x| < U32 && anchor <= START <= ip && ip + LAST_LITERALS < |x|
    requires Remembers(x, ip, table)
    ensures ip < next <= |x| && Remembers(x, next, table')
    ensures GreedyBlock(x, ip, anchor, table) == GreedyBlock(x, next, anchor, table')
  {
    var slot := Slot(x, ip);
    table', next := table[slot := Stamp(ip)], ip + 1;
    NoCandidate(c, n, x, ip, table, table[slot]);
    RemembersNext(x, ip, table, slot);
    GreedyUnfolds(x, ip, anchor, table);
    assert Advance(x, ip, anchor, table) == Step(next, anchor, table', None);
  }

  /** In the cycle the match finder goes on to the end without a match. */
  lemma {:induction false} NothingFound(c: Cycle, n: nat, x: seq<byte>, ip: nat, anchor: nat, table: Table)
    requires Hides(c) && x == Looped(c, n) && |x| < U32 && anchor <= START <= ip <= |x| && Remembers(x, ip, table)
    ensures GreedyBlock(x, ip, anchor, table) == Block([], Some(x[anchor..]))
    decreases |x| - ip
  {
    if ip + LAST_LITERALS >= |x| {
    } else {
      var next, table' := OneMiss(c, n, x, ip, anchor, table);
      NothingFound(c, n, x, next, anchor, table');
    }
  }

  /** A match in the beginning does not reach into the cycle. */
  lemma MatchStops(c: Cycle, n: nat, x: seq<byte>, refPos: nat, ip: nat, m: nat)
    requires Hides(c) && x == Looped(c, n) && ip < START && Agrees(x, refPos, ip, m)
    ensures ip + m <= START
  {
    if ip + m > START {
      var k := START - ip;
      LoopedBytes(c, n, START);
      EarlyBytes(c, n, refPos + k);
      DifferAt(x, refPos, ip, m, k);
    }
  }

  /** Wherever the match finder starts in the beginning, its last literals go from there to the end. */
  lemma {:induction false} LastLiterals(c: Cycle, n: nat, x: seq<byte>, ip: nat, anchor: nat, table: Table)
    returns (a: nat)
    requires Hides(c) && x == Looped(c, n) && |x| < U32 && anchor <= ip <= START
    ensures a <= START && GreedyBlock(x, ip, anchor, table).tail == Some(x[a..])
    decreases START - ip
  {
    if ip == START {
      NothingFound(c, n, x, ip, anchor, table);
      a := anchor;
    } else {
      var s := Advance(x, ip, anchor, table);
      GreedyUnfolds(x, ip, anchor, table);
      var refPos := table[Slot(x, ip)];
      if IsCandidate(x, refPos, ip) {
        MatchStops(c, n, x, refPos, ip, MatchLength(x, refPos, ip, MIN_MATCH));
      }
      a := LastLiterals(c, n, x, s.ip, s.anchor, s.table);
    }
  }

  /** A long enough last run of literals makes the stream longer than the input. */
  lemma LongTail(b: Block, x: seq<byte>, a: nat)
    requires AllEncodable(b.matches) && a <= START && |x| >= 144_145 && b.tail == Some(x[a..])
    ensures |Print(b)| >= |x|
  {
    var literals := x[a..];
    LengthBytesSize(|literals| - 15);
    assert |PrintTail(b.tail)| == 1 + ((|literals| - 15) / 255 + 1) + |literals|;
  }

  lemma ReturnedUnchanged(c: Cycle, n: nat, x: seq<byte>)
    requires Hides(c) && x == Looped(c, n) && 144_145 <= |x| < U32
    ensures Compressed(x) == x
  {
    var a := LastLiterals(c, n, x, 0, 0, EMPTY_TABLE);
    LongTail(GreedyBlock(x, 0, 0, EMPTY_TABLE), x, a);
  }

  // ------------------------------------------------------- and the decoder accepts

  /** The literals of a block, the block itself, and `n` of them before the last literals. */
  function Literals(c: Cycle): seq<byte> {
    Arounds(c, 2, 36)
  }

  function Round(c: Cycle): Sequence {
    Sequence(Literals(c), 40, 4)
  }

  function Rounds(c: Cycle, n: nat): (b: Block)
    ensures AllEncodable(b.matches)
  {
    Block(Filled(Round(c), n), Some(Literals(c)))
  }

  lemma RoundPrints(c: Cycle)
    requires Hides(c)
    ensures PrintSequence(Round(c)) == Arounds(c, 0, 40) && PrintTail(Some(Literals(c))) == Arounds(c, 0, 38)
  {
    var header, offset := Arounds(c, 0, 2), Arounds(c, 38, 2);
    assert header == [240, 21] && offset == [40, 0];
    assert LengthBytes(21) == [21];
    assert PrintLiterals(Literals(c), 0) == header + Literals(c);
    AroundsJoin(c, 0, 2, 2, 36, 38);
    AroundsJoin(c, 0, 38, 38, 2, 40);
  }

  lemma {:induction false} RoundsPrint(c: Cycle, n: nat, k: nat)
    requires Hides(c) && k == 38 + PERIOD * n
    ensures Print(Rounds(c, n)) == Arounds(c, 0, k)
    decreases n
  {
    RoundPrints(c);
    if n == 0 {
      assert Print(Rounds(c, 0)) == [] + PrintTail(Some(Literals(c)));
    } else {
      var rest, k' := Rounds(c, n - 1), k - 40;
      RoundsPrint(c, n - 1, k');
      assert Rounds(c, n).matches == [Round(c)] + rest.matches;
      PrintCons(Round(c), rest);
      AroundsJoin(c, 0, 40, 0, k', k);
    }
  }

  /** A copy from a period back goes on with the cycle. */
  lemma CycleCopies(c: Cycle, before: seq<byte>, n: nat, m: nat)
    requires n >= PERIOD && m == n + 4
    ensures CopyMatch(before + Arounds(c, 19, n), 40, 4) == before + Arounds(c, 19, m)
  {
    var out, y := before + Arounds(c, 19, n), before + Arounds(c, 19, m);
    assert y[..|out|] == out;
    forall k | 0 <= k < 4
      ensures y[|out|..][k] == y[|out| - 40..][k]
    {
      Arith.DivModStep(19 + n + k, PERIOD);
    }
    CopyMatchIs(out, 40, 4, y);
  }

  /** So do literals and such a copy. */
  lemma RoundGoesOn(c: Cycle, before: seq<byte>, n: nat, k: nat, m: nat)
    requires n >= 4 && (19 + n) % PERIOD == 2 && k == n + 36 && m == n + 40
    ensures before + Arounds(c, 19, n) + Literals(c) == before + Arounds(c, 19, k)
    ensures CopyMatch(before + Arounds(c, 19, k), 40, 4) == before + Arounds(c, 19, m)
  {
    Seqs.Assoc(before, Arounds(c, 19, n), Literals(c));
    AroundsJoin(c, 19, n, 2, 36, k);
    CycleCopies(c, before, k, m);
  }

  /** A sequence in front of a block. */
  function Then(q: Sequence, b: Block): Block {
    Block([q] + b.matches, b.tail)
  }

  lemma ThenExpands(q: Sequence, b: Block, out: seq<byte>, out': seq<byte>)
    requires 1 <= q.offset <= |out + q.literals| && CopyMatch(out + q.literals, q.offset, q.matchLen) == out'
    ensures Expand(Then(q, b), out) == Expand(b, out')
  {
    ExpandCons(q, b, out);
  }

  lemma LastRoundExpands(c: Cycle, before: seq<byte>, m: nat, k: nat)
    requires m >= 4 && (19 + m) % PERIOD == 2 && k == m + 36
    ensures Expand(Rounds(c, 0), before + Arounds(c, 19, m)) == Some(before + Arounds(c, 19, k))
  {
    RoundGoesOn(c, before, m, k, m + 40);
  }

  lemma OneRoundExpands(c: Cycle, before: seq<byte>, m: nat, m': nat, b: Block)
    requires m >= 4 && (19 + m) % PERIOD == 2 && m' == m + 40
    ensures Expand(Then(Round(c), b), before + Arounds(c, 19, m)) == Expand(b, before + Arounds(c, 19, m'))
  {
    var out, out' := before + Arounds(c, 19, m), before + Arounds(c, 19, m');
    RoundGoesOn(c, before, m, m + 36, m');
    ThenExpands(Round(c), b, out, out');
  }

  lemma {:induction false} RoundsExpand(c: Cycle, before: seq<byte>, m: nat, n: nat, k: nat)
    requires m >= 4 && (19 + m) % PERIOD == 2 && k == m + PERIOD * n + 36
    ensures Expand(Rounds(c, n), before + Arounds(c, 19, m)) == Some(before + Arounds(c, 19, k))
    decreases n
  {
    if n == 0 {
      LastRoundExpands(c, before, m, k);
    } else {
      var rest, m' := Rounds(c, n - 1), m + 40;
      assert Rounds(c, n) == Then(Round(c), rest);
      OneRoundExpands(c, before, m, m', rest);
      Arith.DivModStep(19 + m', PERIOD);
      RoundsExpand(c, before, m', n - 1, k);
    }
  }

  /** The sequence whose literals are the first free ones. */
  function Free(c: Cycle): Sequence {
    Sequence(Arounds(c, 19, 779), 40, 4)
  }

  lemma HeaderPrints(c: Cycle, header: seq<byte>)
    requires Hides(c) && header == [240, 255, 255, 254]
    ensures PrintSequence(Free(c)) == header + Arounds(c, 19, 781)
  {
    var offset := Arounds(c, 38, 2);
    assert LengthBytes(764) == [255, 255, 254];
    assert offset == [40, 0];
    assert PrintSequence(Free(c)) == header + Arounds(c, 19, 779) + offset;
    AroundsJoin(c, 19, 779, 38, 2, 781);
    Seqs.Assoc(header, Arounds(c, 19, 779), offset);
  }

  lemma TwelvePrints()
    ensures [12, 0] + PrintSequence(Sequence(TWELVE, 12, 6)) + [194] == TWELVE + TWELVE[..6]
  {
    assert PrintSequence(Sequence(TWELVE, 12, 6)) == [194] + TWELVE + [12, 0];
  }

  lemma TurnPrints()
    ensures PrintSequence(Sequence(TURN, 12, 6)) + [240, 255, 255, 254] == [194] + (TURN + TURN[..6])
  {
    assert PrintSequence(Sequence(TURN, 12, 6)) == [194] + TURN + [12, 0];
  }

  /** Copying six of the last twelve bytes. */
  lemma SixCopied(before: seq<byte>, t: seq<byte>)
    requires |t| == 12
    ensures CopyMatch(before + t, 12, 6) == before + (t + t[..6])
  {
    CopyMatchIs(before + t, 12, 6, before + (t + t[..6]));
  }

  // --------------------------------------------------------- the whole stream

  /** The input as a stream. */
  function Stream(c: Cycle, n: nat): Block {
    Then(FIRST, Then(Sequence(TWELVE, 12, 6), Then(Sequence(TURN, 12, 6), Then(Free(c), Rounds(c, n)))))
  }

  lemma ThenPrints(q: Sequence, b: Block)
    requires Encodable(q) && AllEncodable(b.matches)
    ensures AllEncodable(Then(q, b).matches) && Print(Then(q, b)) == PrintSequence(q) + Print(b)
  {
    PrintCons(q, b);
  }

  lemma Regroup(h: seq<byte>, o: seq<byte>, p: seq<byte>, q: seq<byte>, k: seq<byte>, z: seq<byte>,
                u: seq<byte>, v: seq<byte>, a: seq<byte>)
    requires o + p + z == u && q + k == z + v
    ensures (h + o) + (p + (q + (k + a))) == (h + (u + v)) + a
  {
    Seqs.Assoc(q, k, a);
    Seqs.Assoc(z, v, a);
    Seqs.Assoc(p, z, v + a);
    Seqs.Assoc(h, o, p + (z + (v + a)));
    Seqs.Assoc(o, p, z + (v + a));
    Seqs.Assoc(o + p, z, v + a);
    Seqs.Assoc(u, v, a);
    Seqs.Assoc(h, u + v, a);
  }

  /** A header and its first literals before whole rounds of the cycle. */
  lemma TailJoins(c: Cycle, header: seq<byte>, k: nat, m: nat, p: seq<byte>, q: seq<byte>)
    requires p == header + Arounds(c, 19, 781) && q == Arounds(c, 0, k) && m == 781 + k
    ensures p + q == header + Arounds(c, 19, m)
  {
    AroundsJoin(c, 19, 781, 0, k, m);
    Seqs.Assoc(header, Arounds(c, 19, 781), q);
  }

  lemma StreamPrints(c: Cycle, n: nat)
    requires Hides(c)
    ensures AllEncodable(Stream(c, n).matches) && Print(Stream(c, n)) == Looped(c, n)
  {
    var twelve, turn := Sequence(TWELVE, 12, 6), Sequence(TURN, 12, 6);
    var b3 := Then(Free(c), Rounds(c, n));
    var b2 := Then(turn, b3);
    var b1 := Then(twelve, b2);
    ThenPrints(Free(c), Rounds(c, n));
    ThenPrints(turn, b3);
    ThenPrints(twelve, b2);
    ThenPrints(FIRST, b1);
    FirstPrints();
    TwelvePrints();
    TurnPrints();
    var header: seq<byte>, k, m := [240, 255, 255, 254], 38 + PERIOD * n, 819 + PERIOD * n;
    HeaderPrints(c, header);
    RoundsPrint(c, n, k);
    TailJoins(c, header, k, m, PrintSequence(Free(c)), Print(Rounds(c, n)));
    Regroup(Heads(529), [12, 0], PrintSequence(twelve), PrintSequence(turn), header, [194],
            TWELVE + TWELVE[..6], TURN + TURN[..6], Arounds(c, 19, m));
  }

  lemma BridgeExpands(b: Block)
    ensures Expand(Then(Sequence(TWELVE, 12, 6), Then(Sequence(TURN, 12, 6), b)), Heads(529)) == Expand(b, BEGINNING)
  {
    var twelve, turn := Sequence(TWELVE, 12, 6), Sequence(TURN, 12, 6);
    var six := Heads(529) + (TWELVE + TWELVE[..6]);
    SixCopied(Heads(529), TWELVE);
    ThenExpands(twelve, Then(turn, b), Heads(529), six);
    SixCopied(six, TURN);
    Seqs.Assoc(Heads(529), TWELVE + TWELVE[..6], TURN + TURN[..6]);
    ThenExpands(turn, b, six, BEGINNING);
  }

  lemma FreeExpands(c: Cycle, before: seq<byte>, b: Block)
    ensures Expand(Then(Free(c), b), before) == Expand(b, before + Arounds(c, 19, 783))
  {
    CycleCopies(c, before, 779, 783);
    ThenExpands(Free(c), b, before, before + Arounds(c, 19, 783));
  }

  lemma TailExpands(c: Cycle, n: nat, x: seq<byte>)
    requires x == Looped(c, n)
    ensures Expand(Then(Free(c), Rounds(c, n)), BEGINNING) == Some(x)
  {
    var rounds, k := Rounds(c, n), 819 + PERIOD * n;
    FreeExpands(c, BEGINNING, rounds);
    RoundsExpand(c, BEGINNING, 783, n, k);
  }

  lemma StreamExpands(c: Cycle, n: nat, x: seq<byte>)
    requires x == Looped(c, n)
    ensures Expand(Stream(c, n), []) == Some(x)
  {
    var rest := Then(Free(c), Rounds(c, n));
    assert [] + Heads(525) == Heads(525);
    HeadsGoOn(525, 4);
    ThenExpands(FIRST, Then(Sequence(TWELVE, 12, 6), Then(Sequence(TURN, 12, 6), rest)), [], Heads(529));
    BridgeExpands(rest);
    TailExpands(c, n, x);
  }

  /** Beyond a page the round trip can hold although nothing is saved: each of
      these inputs is returned unchanged and decodes to itself. */
  lemma RoundTripUnshortened(n: nat) returns (x: seq<byte>)
    requires 3570 <= n <= 100_000_000
    ensures |x| == 1384 + PERIOD * n
    ensures Compressed(x) == x && Decode(x) == Some(x)
  {
    x := Looped(CYCLE, n);
    CycleHides();
    ReturnedUnchanged(CYCLE, n, x);
    StreamPrints(CYCLE, n);
    StreamExpands(CYCLE, n, x);
    ParsePrint(Stream(CYCLE, n));
  }
}
