/** The LZ4 compressor and decompressor of src/zram.rs.

    `GreedyBlock` says which block the greedy match finder produces from any
    hash table; the lemmas about it hold for every table, because each
    candidate is compared byte by byte before it is used.  The methods are the
    loops of the source: they advance positions, update the hash table, append
    to the output and write the decode buffer in place.
 */
module Lz4Codec {
  import opened Prelude
  import opened Lz4Format
  import Seqs

  const TABLE_SIZE: nat := 4096
  const HASH_FACTOR: nat := 2654435761
  const MIN_INPUT: nat := 16
  const LAST_LITERALS: nat := 5
  const MAX_OFFSET: nat := 65535

  type Table = t: seq<nat> | |t| == TABLE_SIZE witness Filled<nat>(0, TABLE_SIZE)

  const EMPTY_TABLE: Table := Filled<nat>(0, TABLE_SIZE)

  /** A position as the table stores it, truncated to 32 bits. */
  function Stamp(ip: nat): nat {
    ip % U32
  }

  /** Four bytes as a little-endian number. */
  function Word(a: int, b: int, c: int, d: int): int {
    a + 256 * b + 65536 * c + 16777216 * d
  }

  /** The top twelve of the 32 bits of a product that wraps. */
  function Mix(v: int): (h: nat)
    ensures h < TABLE_SIZE
  {
    v * HASH_FACTOR % U32 / 0x10_0000 % TABLE_SIZE
  }

  /** Slot of the four bytes at `ip`. */
  function Slot(input: seq<byte>, ip: nat): (h: nat)
    requires ip <= |input|
    ensures h < TABLE_SIZE
  {
    if |input| - ip < 4 then 0 else Mix(Word(input[ip], input[ip + 1], input[ip + 2], input[ip + 3]))
  }

  predicate Agrees(input: seq<byte>, refPos: nat, ip: nat, m: nat) {
    && refPos < ip && ip + m <= |input|
    && input[refPos..refPos + m] == input[ip..ip + m]
  }

  /** A table entry is used only if it lies strictly behind, within reach, and the next four bytes agree. */
  predicate IsCandidate(input: seq<byte>, refPos: nat, ip: nat) {
    && 0 < refPos < ip
    && ip - refPos < MAX_OFFSET
    && Agrees(input, refPos, ip, MIN_MATCH)
  }

  lemma FourAgree(input: seq<byte>, g: nat, p: nat)
    requires g < p && p + 4 <= |input|
    ensures Agrees(input, g, p, MIN_MATCH) <==>
            && input[g] == input[p] && input[g + 1] == input[p + 1]
            && input[g + 2] == input[p + 2] && input[g + 3] == input[p + 3]
    ensures Agrees(input, g, p, MIN_MATCH) ==> Slot(input, g) == Slot(input, p)
  {
    var u, v := input[g..g + 4], input[p..p + 4];
    assert u == [input[g], input[g + 1], input[g + 2], input[g + 3]];
    assert v == [input[p], input[p + 1], input[p + 2], input[p + 3]];
  }

  lemma AgreesMore(input: seq<byte>, refPos: nat, ip: nat, m: nat)
    requires Agrees(input, refPos, ip, m) && ip + m < |input|
    ensures Agrees(input, refPos, ip, m + 1) <==> input[ip + m] == input[refPos + m]
  {
    Seqs.EqualSlices(input, refPos, ip, m);
  }

  /** How far the match at `ip` reaches, given that `m` bytes agree. */
  function MatchLength(input: seq<byte>, refPos: nat, ip: nat, m: nat): (r: nat)
    requires Agrees(input, refPos, ip, m)
    ensures m <= r && Agrees(input, refPos, ip, r) && !Agrees(input, refPos, ip, r + 1)
    decreases |input| - m
  {
    if ip + m < |input| then
      AgreesMore(input, refPos, ip, m);
      if input[ip + m] == input[refPos + m] then MatchLength(input, refPos, ip, m + 1) else m
    else m
  }

  /** Where one iteration of the match finder leaves it, and the sequence it emits, if any. */
  datatype Step = Step(ip: nat, anchor: nat, table: Table, found: Option<Sequence>)

  function Advance(input: seq<byte>, ip: nat, anchor: nat, table: Table): (r: Step)
    requires anchor <= ip < |input|
    ensures r.anchor <= r.ip <= |input| && ip < r.ip
    ensures r.found.Some? ==> Encodable(r.found.value)
  {
    var slot := Slot(input, ip);
    var refPos := table[slot];
    var table' := table[slot := Stamp(ip)];
    if IsCandidate(input, refPos, ip) then
      var m := MatchLength(input, refPos, ip, MIN_MATCH);
      Step(ip + m, ip + m, table', Some(Sequence(input[anchor..ip], ip - refPos, m)))
    else
      Step(ip + 1, anchor, table', None)
  }

  /** The block found from position `ip` on, with literals pending since `anchor`. */
  function GreedyBlock(input: seq<byte>, ip: nat, anchor: nat, table: Table): (b: Block)
    requires anchor <= ip <= |input|
    ensures AllEncodable(b.matches)
    decreases |input| - ip
  {
    if ip + LAST_LITERALS >= |input| then
      Block([], if anchor < |input| then Some(input[anchor..]) else None)
    else
      var s := Advance(input, ip, anchor, table);
      var b := GreedyBlock(input, s.ip, s.anchor, s.table);
      if s.found.Some? then Block([s.found.value] + b.matches, b.tail) else b
  }

  lemma GreedyUnfolds(input: seq<byte>, ip: nat, anchor: nat, table: Table)
    requires anchor <= ip && ip + LAST_LITERALS < |input|
    ensures
      var s := Advance(input, ip, anchor, table);
      var rest := GreedyBlock(input, s.ip, s.anchor, s.table);
      GreedyBlock(input, ip, anchor, table)
      == if s.found.Some? then Block([s.found.value] + rest.matches, rest.tail) else rest
  {
  }

  /** The stream before the check that it is shorter than the input. */
  function Emitted(input: seq<byte>): seq<byte> {
    Print(GreedyBlock(input, 0, 0, EMPTY_TABLE))
  }

  /** The compressor's result: small or incompressible input is returned unchanged. */
  function Compressed(input: seq<byte>): seq<byte> {
    if |input| < MIN_INPUT || |Emitted(input)| >= |input| then input else Emitted(input)
  }

  // ------------------------------------------------------------- round trip

  /** Copying an agreeing match, overlapping or not, reproduces the input. */
  lemma {:induction false} CopyReproduces(input: seq<byte>, refPos: nat, ip: nat, m: nat)
    requires Agrees(input, refPos, ip, m)
    ensures CopyMatch(input[..ip], ip - refPos, m) == input[..ip + m]
  {
    if m == 0 {
    } else {
      var last := m - 1;
      var p := input[..ip + last];
      Seqs.EqualSlices(input, refPos, ip, last);
      CopyReproduces(input, refPos, ip, last);
      CopyMatchNext(input[..ip], ip - refPos, m, p, input[ip + last]);
      Seqs.TakeLast(input, ip + m);
    }
  }

  /** One iteration's sequence accounts for the input it passes over. */
  lemma AdvanceExpands(input: seq<byte>, ip: nat, anchor: nat, table: Table)
    requires anchor <= ip < |input|
    ensures
      var s := Advance(input, ip, anchor, table);
      match s.found
      case None => s.anchor == anchor
      case Some(q) =>
        && input[..anchor] + q.literals == input[..ip]
        && 1 <= q.offset <= ip
        && CopyMatch(input[..ip], q.offset, q.matchLen) == input[..s.anchor]
  {
    var refPos := table[Slot(input, ip)];
    if IsCandidate(input, refPos, ip) {
      var m := MatchLength(input, refPos, ip, MIN_MATCH);
      CopyReproduces(input, refPos, ip, m);
      Seqs.TakeMore(input, anchor, ip);
    }
  }

  /** Whatever the hash table holds, the block stands for the rest of the input. */
  lemma {:induction false} GreedyExpands(input: seq<byte>, ip: nat, anchor: nat, table: Table)
    requires anchor <= ip <= |input|
    ensures Expand(GreedyBlock(input, ip, anchor, table), input[..anchor]) == Some(input)
    decreases |input| - ip
  {
    if ip + LAST_LITERALS >= |input| {
      assert anchor < |input| ==> input[..anchor] + input[anchor..] == input;
      assert anchor == |input| ==> input[..anchor] == input;
    } else {
      var s := Advance(input, ip, anchor, table);
      GreedyExpands(input, s.ip, s.anchor, s.table);
      AdvanceExpands(input, ip, anchor, table);
      if s.found.Some? {
        ExpandCons(s.found.value, GreedyBlock(input, s.ip, s.anchor, s.table), input[..anchor]);
      }
    }
  }

  /** The reference decoder inverts the match finder, for every input and every starting table. */
  lemma EmittedDecodes(input: seq<byte>, table: Table)
    ensures Decode(Print(GreedyBlock(input, 0, 0, table))) == Some(input)
  {
    GreedyExpands(input, 0, 0, table);
    ParsePrint(GreedyBlock(input, 0, 0, table));
    assert input[..0] == [];
  }

  /** The codec's law: a result shorter than the input decodes to the input; otherwise it is the input itself. */
  lemma CompressedRoundTrip(input: seq<byte>)
    ensures |Compressed(input)| <= |input|
    ensures |Compressed(input)| < |input| ==> Decode(Compressed(input)) == Some(input)
    ensures |Compressed(input)| == |input| ==> Compressed(input) == input
  {
    EmittedDecodes(input, EMPTY_TABLE);
  }

  /** What it takes for a stream to begin with a copy made from its own bytes `h` places further on. */
  lemma CopiedFromItself(x: seq<byte>, h: nat, n: nat, own: seq<byte>, offset: nat, m: nat)
    requires h + n <= |x| && own == x[h..h + n] && 1 <= offset <= n
    requires CopyMatch(own, offset, m) <= x
    ensures forall i :: 0 <= i < n ==> x[i] == x[h..][i]
  {
    var copied := CopyMatch(own, offset, m);
    forall i | 0 <= i < n
      ensures x[i] == x[h..][i]
    {
      assert copied[i] == own[i] == x[h..][i];
    }
  }

  /** A byte that the first match of such a stream copies. */
  lemma CopiedAt(x: seq<byte>, own: seq<byte>, offset: nat, m: nat, i: nat)
    requires 1 <= offset <= |own| <= i < |own| + m && CopyMatch(own, offset, m) <= x
    ensures x[i] == x[i - offset]
  {
    CopyMatchBack(own, offset, m, i);
  }

  lemma {:induction false} ShiftedPrefixIsConstant(x: seq<byte>, n: nat)
    requires n < |x| && forall i :: 0 <= i < n ==> x[i] == x[1..][i]
    ensures forall i :: 0 <= i <= n ==> x[i] == x[0]
  {
    if n == 0 {
    } else {
      ShiftedPrefixIsConstant(x, n - 1);
      assert x[n - 1] == x[1..][n - 1];
    }
  }

  /** The first sequence of a stream cannot copy the stream itself: its offset would be 257 times its token. */
  lemma NoSelfCopy(x: seq<byte>, n: nat, own: seq<byte>, offset: nat, m: nat)
    requires n < 15 && n + 3 <= |x| && 1 <= offset <= n && m >= MIN_MATCH
    requires own == x[1..n + 1] && offset == LittleEndian(x[n + 1], x[n + 2])
    ensures !(CopyMatch(own, offset, m) <= x)
  {
    if CopyMatch(own, offset, m) <= x {
      CopiedFromItself(x, 1, n, own, offset, m);
      ShiftedPrefixIsConstant(x, n);
      CopiedAt(x, own, offset, m, n + 1);
      CopiedAt(x, own, offset, m, n + 2);
    }
  }

  /** The literal length that one extension byte gives. */
  function ExtendedLength(b: int): nat
    requires 0 <= b
  {
    15 + b
  }

  function Alternate(x: seq<byte>, i: nat): byte
    requires |x| >= 2
  {
    if i % 2 == 0 then x[0] else x[1]
  }

  lemma {:induction false} AlternatingPrefix(x: seq<byte>, n: nat)
    requires n + 2 <= |x| && forall i :: 0 <= i < n ==> x[i] == x[2..][i]
    ensures forall i :: 0 <= i < n + 2 ==> x[i] == Alternate(x, i)
  {
    if n == 0 {
    } else {
      AlternatingPrefix(x, n - 1);
      assert x[n + 1] == x[2..][n - 1] == x[n - 1] == Alternate(x, n - 1);
    }
  }

  /** Copies of an alternating prefix alternate, so the offset bytes are the two alternating values. */
  lemma CopiesAlternate(x: seq<byte>, n: nat, offset: nat)
    requires n + 4 <= |x| && 1 <= offset <= n
    requires forall i :: 0 <= i < n + 2 ==> x[i] == Alternate(x, i)
    requires x[n] == x[n - offset] && x[n + 2] == x[n + 2 - offset] && x[n + 3] == x[n + 3 - offset]
    ensures (x[n + 2] == x[0] && x[n + 3] == x[1]) || (x[n + 2] == x[1] && x[n + 3] == x[0])
  {
    var p := n + 2 - offset;
    assert x[n + 2] == x[p] == Alternate(x, p);
    if offset == 1 {
      assert Alternate(x, n) == x[n] == x[n - 1] == Alternate(x, n - 1);
    } else {
      assert x[n + 3] == x[p + 1] == Alternate(x, p + 1);
    }
  }

  /** Neither order of a token and a closing byte is an offset within the literals they announce. */
  lemma NoSuchOffset(token: int, b: int)
    requires 240 <= token < 256 && 0 <= b < 256
    ensures LittleEndian(token, b) > ExtendedLength(b) && LittleEndian(b, token) > ExtendedLength(b)
  {
  }

  lemma RepeatsThenAlternates(x: seq<byte>, n: nat, offset: nat)
    requires n + 4 <= |x| && 1 <= offset <= n && forall i :: 0 <= i < n ==> x[i] == x[2..][i]
    requires x[n] == x[n - offset] && x[n + 2] == x[n + 2 - offset] && x[n + 3] == x[n + 3 - offset]
    ensures (x[n + 2] == x[0] && x[n + 3] == x[1]) || (x[n + 2] == x[1] && x[n + 3] == x[0])
  {
    AlternatingPrefix(x, n);
    CopiesAlternate(x, n, offset);
  }

  /** The same for a literal length with one extension byte: the stream would alternate between
      its token and that byte, and neither order of the two is a possible offset. */
  lemma NoSelfCopyExtended(x: seq<byte>, n: nat, own: seq<byte>, offset: nat, m: nat)
    requires n + 4 <= |x| && x[0] >= 240 && n == ExtendedLength(x[1]) && 1 <= offset <= n && m >= MIN_MATCH
    requires own == x[2..2 + n] && offset == LittleEndian(x[n + 2], x[n + 3])
    ensures !(CopyMatch(own, offset, m) <= x)
  {
    NoSuchOffset(x[0], x[1]);
    if CopyMatch(own, offset, m) <= x {
      CopiedFromItself(x, 2, n, own, offset, m);
      CopiedAt(x, own, offset, m, n);
      CopiedAt(x, own, offset, m, n + 2);
      CopiedAt(x, own, offset, m, n + 3);
      RepeatsThenAlternates(x, n, offset);
    }
  }

  /** A stream that decodes to itself starts with what its first sequence expands to. */
  lemma SelfDecodingCopies(x: seq<byte>)
    requires x != [] && Decode(x) == Some(x)
    ensures Cut(x).Chunk?
    ensures
      var q := Cut(x).q;
      1 <= q.offset <= |q.literals| && CopyMatch(q.literals, q.offset, q.matchLen) <= x
  {
    DecodeStep(x, []);
    var q := Cut(x).q;
    assert [] + q.literals == q.literals;
    DecodeAfterGrows(Cut(x).rest, CopyMatch(q.literals, q.offset, q.matchLen));
  }

  /** Where the first sequence lies if its literal length has no extension. */
  lemma FirstPlain(x: seq<byte>)
    requires x != [] && x[0] < 240 && Cut(x).Chunk?
    ensures x[0] / 16 + 3 <= |x| && Cut(x).q.matchLen >= MIN_MATCH
    ensures
      var n := x[0] / 16;
      Cut(x).q.literals == x[1..n + 1] && Cut(x).q.offset == LittleEndian(x[n + 1], x[n + 2])
  {
    var n := x[0] / 16;
    if n + 1 <= |x| {
      Seqs.DropDrop(x, 1, n);
      assert x[1..][..n] == x[1..n + 1];
    }
  }

  /** Where the first sequence lies if its literal length has one extension byte. */
  lemma FirstExtension(x: seq<byte>)
    requires x != [] && x[0] >= 240 && (|x| < MIN_INPUT || x[1] < 255) && Cut(x).Chunk?
    ensures |x| >= 2 && x[1] < 255 && ExtendedLength(x[1]) + 4 <= |x|
    ensures
      var n := ExtendedLength(x[1]);
      Cut(x).q.literals == x[2..n + 2] && Cut(x).q.offset == LittleEndian(x[n + 2], x[n + 3])
  {
    if |x| >= 2 && x[1] < 255 {
      var n := ExtendedLength(x[1]);
      assert x[1..][0] == x[1];
      Seqs.DropDrop(x, 1, 1);
      assert ReadLength(x[1..], 15) == Length(n, x[2..]);
      if n + 2 <= |x| {
        Seqs.DropDrop(x, 2, n);
        assert x[2..][..n] == x[2..n + 2];
      }
    }
  }

  /** What such a first sequence expands to is not how the stream begins. */
  lemma FirstNotItself(x: seq<byte>, q: Sequence)
    requires x != [] && (|x| < MIN_INPUT || x[0] < 240 || x[1] < 255)
    requires Cut(x).Chunk? && q == Cut(x).q && 1 <= q.offset <= |q.literals|
    ensures !(CopyMatch(q.literals, q.offset, q.matchLen) <= x)
  {
    if x[0] < 240 {
      var n := x[0] / 16;
      FirstPlain(x);
      NoSelfCopy(x, n, q.literals, q.offset, q.matchLen);
    } else {
      FirstExtension(x);
      var n := ExtendedLength(x[1]);
      NoSelfCopyExtended(x, n, q.literals, q.offset, q.matchLen);
    }
  }

  /** A stream whose first literal length needs at most one extension byte never decodes to itself. */
  lemma NoSelfDecoding(x: seq<byte>)
    requires x != [] && (|x| < MIN_INPUT || x[0] < 240 || x[1] < 255)
    ensures Decode(x) != Some(x)
  {
    if Decode(x) == Some(x) {
      SelfDecodingCopies(x);
      FirstNotItself(x, Cut(x).q);
    }
  }

  /** The stream exceeds an n-byte input by at most n / 255 + 2 bytes, whatever the hash table holds. */
  lemma EmittedSize(input: seq<byte>, table: Table)
    ensures |Print(GreedyBlock(input, 0, 0, table))| <= |input| + |input| / 255 + 2
  {
    var b := GreedyBlock(input, 0, 0, table);
    assert input[..0] == [];
    GreedyExpands(input, 0, 0, table);
    ExpandMatchesLength(b.matches, []);
    PrintSize(b);
  }

  // -------------------------------------------------------------- compressor

  /** Appends a length as 255s and a closing byte. */
  method EmitLength(output: seq<byte>, n: nat) returns (r: seq<byte>)
    ensures r == output + LengthBytes(n)
  {
    r := output;
    var remaining := n;
    while remaining >= 255
      invariant 0 <= remaining
      invariant r + LengthBytes(remaining) == output + LengthBytes(n)
    {
      Seqs.Assoc(r, [255], LengthBytes(remaining - 255));
      r := r + [255];
      remaining := remaining - 255;
    }
    r := r + [remaining];
  }

  /** The extension of a nibble that is 15. */
  method EmitExtension(output: seq<byte>, n: nat) returns (r: seq<byte>)
    ensures r == output + Extension(n)
  {
    r := output;
    if n >= 15 {
      r := EmitLength(r, n - 15);
    } else {
      assert output + [] == output;
    }
  }

  /** Token, extended literal length and literals. */
  method EmitLiterals(output: seq<byte>, literals: seq<byte>, low: nat) returns (r: seq<byte>)
    requires low < 16
    ensures r == output + PrintLiterals(literals, low)
  {
    var token: byte := (if |literals| >= 15 then 15 else |literals|) * 16 + low;
    r := EmitExtension(output + [token], |literals|);
    r := r + literals;
    Seqs.Assoc(output, [token], Extension(|literals|));
    Seqs.Assoc(output, [token] + Extension(|literals|), literals);
  }

  method EmitSequence(output: seq<byte>, literals: seq<byte>, offset: nat, matchLen: nat) returns (r: seq<byte>)
    requires matchLen >= MIN_MATCH
    ensures r == output + PrintSequence(Sequence(literals, offset, matchLen))
  {
    var matchToken := if matchLen - MIN_MATCH >= 15 then 15 else matchLen - MIN_MATCH;
    var offsetBytes: seq<byte> := [offset % 256, offset / 256 % 256];
    r := EmitLiterals(output, literals, matchToken);
    r := EmitExtension(r + offsetBytes, matchLen - MIN_MATCH);
    ghost var front := PrintLiterals(literals, matchToken);
    Seqs.Assoc(output, front, offsetBytes);
    Seqs.Assoc(output, front + offsetBytes, Extension(matchLen - MIN_MATCH));
  }

  method ExtendMatch(input: seq<byte>, refPos: nat, ip: nat) returns (m: nat)
    requires IsCandidate(input, refPos, ip)
    ensures m == MatchLength(input, refPos, ip, MIN_MATCH)
  {
    m := MIN_MATCH;
    while ip + m < |input| && refPos + m < |input| && input[ip + m] == input[refPos + m]
      invariant Agrees(input, refPos, ip, m)
      invariant MatchLength(input, refPos, ip, m) == MatchLength(input, refPos, ip, MIN_MATCH)
    {
      AgreesMore(input, refPos, ip, m);
      m := m + 1;
    }
  }

  /** One sequence in front of a block, printed. */
  lemma PrintCons(q: Sequence, b: Block)
    requires Encodable(q) && AllEncodable(b.matches)
    ensures Print(Block([q] + b.matches, b.tail)) == PrintSequence(q) + Print(b)
  {
    Seqs.ConsTail(q, b.matches);
    Seqs.Assoc(PrintSequence(q), PrintMatches(b.matches), PrintTail(b.tail));
  }

  function PrintFound(found: Option<Sequence>): seq<byte>
    requires found.Some? ==> Encodable(found.value)
  {
    if found.Some? then PrintSequence(found.value) else []
  }

  lemma PrintAdvance(input: seq<byte>, ip: nat, anchor: nat, table: Table)
    requires anchor <= ip && ip + LAST_LITERALS < |input|
    ensures
      var s := Advance(input, ip, anchor, table);
      Print(GreedyBlock(input, ip, anchor, table))
      == PrintFound(s.found) + Print(GreedyBlock(input, s.ip, s.anchor, s.table))
  {
    var s := Advance(input, ip, anchor, table);
    var b := GreedyBlock(input, s.ip, s.anchor, s.table);
    if s.found.Some? {
      assert GreedyBlock(input, ip, anchor, table) == Block([s.found.value] + b.matches, b.tail);
      PrintCons(s.found.value, b);
    } else {
      assert GreedyBlock(input, ip, anchor, table) == b;
      assert [] + Print(b) == Print(b);
    }
  }

  /** The stream still to come. */
  ghost function Pending(input: seq<byte>, ip: nat, anchor: nat, table: Table): seq<byte>
    requires anchor <= ip <= |input|
  {
    Print(GreedyBlock(input, ip, anchor, table))
  }

  /** One iteration of the match finder: look up and replace the table entry, then emit a sequence or move on. */
  method FindMatch(input: seq<byte>, ip: nat, anchor: nat, table: array<nat>, output: seq<byte>)
    returns (ip': nat, anchor': nat, output': seq<byte>)
    requires anchor <= ip < |input| && table.Length == TABLE_SIZE
    modifies table
    ensures
      var s := Advance(input, ip, anchor, old(table[..]));
      && ip' == s.ip && anchor' == s.anchor && table[..] == s.table
      && output' == output + PrintFound(s.found)
  {
    var slot := Slot(input, ip);
    var refPos := table[slot];
    table[slot] := Stamp(ip);
    assert table[..] == old(table[..])[slot := Stamp(ip)];
    if IsCandidate(input, refPos, ip) {
      var m := ExtendMatch(input, refPos, ip);
      output' := EmitSequence(output, input[anchor..ip], ip - refPos, m);
      ip' := ip + m;
      anchor' := ip';
    } else {
      ip', anchor', output' := ip + 1, anchor, output;
      assert output + [] == output;
    }
  }

  lemma PendingStep(input: seq<byte>, ip: nat, anchor: nat, table: Table, output: seq<byte>)
    requires anchor <= ip && ip + LAST_LITERALS < |input|
    ensures
      var s := Advance(input, ip, anchor, table);
      output + PrintFound(s.found) + Pending(input, s.ip, s.anchor, s.table)
      == output + Pending(input, ip, anchor, table)
  {
    PrintAdvance(input, ip, anchor, table);
    var s := Advance(input, ip, anchor, table);
    Seqs.Assoc(output, PrintFound(s.found), Pending(input, s.ip, s.anchor, s.table));
  }

  /** An iteration moves bytes from the pending stream to the output. */
  method Iterate(input: seq<byte>, ip: nat, anchor: nat, table: array<nat>, output: seq<byte>)
    returns (ip': nat, anchor': nat, output': seq<byte>)
    requires anchor <= ip && ip + LAST_LITERALS < |input| && table.Length == TABLE_SIZE
    modifies table
    ensures anchor' <= ip' <= |input| && ip < ip'
    ensures output' + Pending(input, ip', anchor', table[..]) == output + Pending(input, ip, anchor, old(table[..]))
  {
    PendingStep(input, ip, anchor, table[..], output);
    ip', anchor', output' := FindMatch(input, ip, anchor, table, output);
  }

  lemma PendingAtEnd(input: seq<byte>, ip: nat, anchor: nat, table: Table)
    requires anchor <= ip <= |input| <= ip + LAST_LITERALS
    ensures Pending(input, ip, anchor, table) == if anchor < |input| then PrintLiterals(input[anchor..], 0) else []
  {
  }

  /** The main loop of compress_lz4 and the last literals. */
  method EmitBlock(input: seq<byte>) returns (output: seq<byte>)
    ensures output == Pending(input, 0, 0, EMPTY_TABLE)
  {
    var table := new nat[TABLE_SIZE](_ => 0);
    assert table[..] == EMPTY_TABLE;
    ghost var whole := Pending(input, 0, 0, EMPTY_TABLE);
    output := [];
    var ip: nat, anchor: nat := 0, 0;
    while ip + LAST_LITERALS < |input|
      invariant anchor <= ip <= |input|
      invariant output + Pending(input, ip, anchor, table[..]) == whole
    {
      ip, anchor, output := Iterate(input, ip, anchor, table, output);
    }
    PendingAtEnd(input, ip, anchor, table[..]);
    if anchor < |input| {
      output := EmitLiterals(output, input[anchor..], 0);
    }
  }

  /** compress_lz4; for what the result means see CompressedRoundTrip. */
  method CompressLz4(input: seq<byte>) returns (r: seq<byte>)
    ensures r == Compressed(input)
  {
    if |input| < MIN_INPUT {
      return input;
    }
    var output := EmitBlock(input);
    return if |output| >= |input| then input else output;
  }

  // ------------------------------------------------------------ decompressor

  /** Reads length bytes from `ip` until one is not 255 or the input ends. */
  method ReadExtension(input: seq<byte>, ip: nat, n: nat) returns (len: nat, ip': nat)
    requires ip <= |input|
    ensures ip <= ip' <= |input|
    ensures ReadLength(input[ip..], n) == Length(len, input[ip'..])
  {
    len, ip' := n, ip;
    while ip' < |input|
      invariant ip <= ip' <= |input|
      invariant ReadLength(input[ip..], n) == ReadLength(input[ip'..], len)
    {
      var b := input[ip'];
      assert input[ip'..][1..] == input[ip' + 1..];
      ip' := ip' + 1;
      len := len + b;
      if b != 255 {
        return;
      }
    }
  }

  /** The overlapping copy, one byte at a time. */
  method CopyWithin(output: array<byte>, op: nat, offset: nat, n: nat)
    requires 1 <= offset <= op && op + n <= output.Length
    modifies output
    ensures output[..op + n] == CopyMatch(old(output[..op]), offset, n)
    ensures forall j :: op + n <= j < output.Length ==> output[j] == old(output[j])
  {
    for i := 0 to n
      invariant output[..op + i] == CopyMatch(old(output[..op]), offset, i)
      invariant forall j :: op + i <= j < output.Length ==> output[j] == old(output[j])
    {
      ghost var before := output[..op + i];
      output[op + i] := output[op - offset + i];
      assert output[..op + i + 1] == before + [before[|before| - offset]];
    }
  }

  /** A length from its nibble and the extension bytes that follow a nibble of 15. */
  method ReadNibbleLength(input: seq<byte>, nibble: nat, ip: nat) returns (len: nat, ip': nat)
    requires ip <= |input|
    ensures ip <= ip' <= |input|
    ensures ParseLength(nibble, input[ip..]) == Length(len, input[ip'..])
  {
    len, ip' := nibble, ip;
    if nibble == 15 {
      len, ip' := ReadExtension(input, ip, 15);
    }
  }

  /** The outcome of one iteration of the decoder: an error, or positions from which decoding continues. */
  datatype Progress = Fail | Next(ip: nat, op: nat)

  ghost predicate Fits(o: Option<seq<byte>>, capacity: nat) {
    o.Some? && |o.value| <= capacity
  }

  /** The back reference at `ip`, as a piece without literals. */
  ghost function Reference(input: seq<byte>, nibble: nat, ip: nat): (r: Piece)
    requires ip + 2 <= |input|
    ensures r.Chunk? && r.q.literals == []
  {
    var run := ParseLength(nibble, input[ip + 2..]);
    Chunk(Sequence([], LittleEndian(input[ip], input[ip + 1]), run.value + MIN_MATCH), run.rest)
  }

  /** The back reference of one iteration; `ip` is at the offset bytes and the literals are already written. */
  method DecodeMatch(input: seq<byte>, nibble: nat, ip: nat, output: array<byte>, op: nat, capacity: nat)
    returns (p: Progress)
    requires ip + 2 <= |input| && op <= capacity <= output.Length
    modifies output
    ensures forall i :: (if p.Next? then p.op else capacity) <= i < output.Length ==> output[i] == old(output[i])
    ensures
      var piece := Reference(input, nibble, ip);
      var o := Apply(piece, old(output[..op]));
      && (p.Next? <==> Fits(o, capacity))
      && (p.Next? ==>
            && ip < p.ip <= |input| && input[p.ip..] == piece.rest
            && op <= p.op <= capacity
            && output[..p.op] == o.value)
  {
    assert output[..op] + [] == output[..op];
    var offset := LittleEndian(input[ip], input[ip + 1]);
    if offset == 0 || offset > op {
      return Fail;
    }
    var matchLen, ip' := ReadNibbleLength(input, nibble, ip + 2);
    matchLen := matchLen + MIN_MATCH;
    if op + matchLen > capacity {
      return Fail;
    }
    CopyWithin(output, op, offset, matchLen);
    return Next(ip', op + matchLen);
  }

  /** copy_from_slice into output[op..]. */
  method CopyIn(output: array<byte>, op: nat, data: seq<byte>)
    requires op + |data| <= output.Length
    modifies output
    ensures output[..op + |data|] == old(output[..op]) + data
    ensures forall j :: op + |data| <= j < output.Length ==> output[j] == old(output[j])
  {
    for i := 0 to |data|
      invariant output[..op + i] == old(output[..op]) + data[..i]
      invariant forall j :: op + i <= j < output.Length ==> output[j] == old(output[j])
    {
      ghost var before := output[..op + i];
      output[op + i] := data[i];
      assert output[..op + i + 1] == before + [data[i]];
    }
  }

  /** The literals of one iteration; `ip` is behind the token. */
  method DecodeLiterals(input: seq<byte>, nibble: nat, ip: nat, output: array<byte>, op: nat, capacity: nat)
    returns (p: Progress)
    requires ip <= |input| && op <= capacity <= output.Length
    modifies output
    ensures forall i :: (if p.Next? then p.op else capacity) <= i < output.Length ==> output[i] == old(output[i])
    ensures
      var lit := ParseLength(nibble, input[ip..]);
      && (p.Next? <==> lit.value <= |lit.rest| && op + lit.value <= capacity)
      && (p.Next? ==>
            && ip <= p.ip == |input| - |lit.rest| + lit.value
            && p.op == op + lit.value
            && output[..p.op] == old(output[..op]) + lit.rest[..lit.value])
  {
    var literalLen, start := ReadNibbleLength(input, nibble, ip);
    if literalLen > 0 {
      if start + literalLen > |input| || op + literalLen > capacity {
        return Fail;
      }
      CopyIn(output, op, input[start..start + literalLen]);
    }
    assert input[start..][..literalLen] == input[start..start + literalLen];
    return Next(start + literalLen, op + literalLen);
  }

  /** The literals of the front piece of input[ip..] are a slice of the input that ends at ip'. */
  lemma LiteralsEnd(input: seq<byte>, ip: nat, lit: Length, ip': nat)
    requires ip < |input| && lit == ParseLength(input[ip] / 16, input[ip + 1..])
    requires ip' == |input| - |lit.rest| + lit.value <= |input|
    ensures lit.rest == lit.rest[..lit.value] + input[ip'..]
  {
    ParseLengthIsSuffix(input[ip] / 16, input[ip + 1..]);
    var start := |input| - |lit.rest|;
    Seqs.DropDrop(input, ip + 1, start - ip - 1);
    Seqs.DropDrop(input, start, lit.value);
    Seqs.TakeDrop(lit.rest, lit.value);
  }

  /** How the front piece ends without a back reference. */
  lemma CutWithoutReference(input: seq<byte>, ip: nat, lit: Length)
    requires ip < |input| && lit == ParseLength(input[ip] / 16, input[ip + 1..])
    ensures lit.value > |lit.rest| || lit.value + 1 == |lit.rest| ==> Cut(input[ip..]) == Malformed
    ensures lit.value == |lit.rest| ==> Cut(input[ip..]) == Final(lit.rest[..lit.value])
  {
    Seqs.DropDrop(input, ip, 1);
  }

  /** Where the front piece has its back reference. */
  lemma CutWithReference(input: seq<byte>, ip: nat, lit: Length, ip': nat)
    requires ip < |input| && lit == ParseLength(input[ip] / 16, input[ip + 1..])
    requires ip' == |input| - |lit.rest| + lit.value && ip' + 2 <= |input|
    ensures
      var piece := Reference(input, input[ip] % 16, ip');
      Cut(input[ip..]) == Chunk(piece.q.(literals := lit.rest[..lit.value]), piece.rest)
  {
    var piece := Reference(input, input[ip] % 16, ip');
    Seqs.DropDrop(input, ip, 1);
    Seqs.DropDrop(input, ip', 2);
    LiteralsEnd(input, ip, lit, ip');
    CutPieces(input[ip..], piece.q.(literals := lit.rest[..lit.value]), input[ip'..], piece.rest);
  }

  /** A piece applied in two halves, literals first. */
  lemma ApplyInHalves(piece: Piece, literals: seq<byte>, out: seq<byte>)
    requires piece.Chunk? && piece.q.literals == []
    ensures
      var o := Apply(Chunk(piece.q.(literals := literals), piece.rest), out);
      && o == Apply(piece, out + literals)
      && (o.Some? ==> |o.value| >= |out| + |literals|)
  {
    assert (out + literals) + [] == out + literals;
  }

  /** What one iteration must do, in terms of positions in the input. */
  lemma ApplyAt(input: seq<byte>, ip: nat, out: seq<byte>)
    requires ip < |input|
    ensures
      var s := input[ip..];
      var lit := ParseLength(input[ip] / 16, input[ip + 1..]);
      var ip' := |input| - |lit.rest| + lit.value;
      && (ip' > |input| || ip' + 1 == |input| ==> Cut(s) == Malformed)
      && (ip' == |input| ==> Cut(s) == Final(lit.rest[..lit.value]))
      && (ip' + 2 <= |input| ==>
            var piece := Reference(input, input[ip] % 16, ip');
            && Remaining(Cut(s)) == piece.rest
            && Apply(Cut(s), out) == Apply(piece, out + lit.rest[..lit.value])
            && (Apply(Cut(s), out).Some? ==> |Apply(Cut(s), out).value| >= |out| + lit.value))
  {
    var lit := ParseLength(input[ip] / 16, input[ip + 1..]);
    var ip' := |input| - |lit.rest| + lit.value;
    CutWithoutReference(input, ip, lit);
    if ip' + 2 <= |input| {
      CutWithReference(input, ip, lit, ip');
      ApplyInHalves(Reference(input, input[ip] % 16, ip'), lit.rest[..lit.value], out);
    }
  }

  /** One iteration of the decoder in terms of positions: token, literals, and a
      back reference unless the input ends. */
  method DecodeAt(input: seq<byte>, ip: nat, output: array<byte>, op: nat, capacity: nat) returns (p: Progress)
    requires ip < |input| && op <= capacity <= output.Length
    modifies output
    ensures forall i :: (if p.Next? then p.op else capacity) <= i < output.Length ==> output[i] == old(output[i])
    ensures
      var lit := ParseLength(input[ip] / 16, input[ip + 1..]);
      var ip' := |input| - |lit.rest| + lit.value;
      if ip' > |input| || ip' + 1 == |input| || op + lit.value > capacity then p.Fail?
      else
        var out := old(output[..op]) + lit.rest[..lit.value];
        if ip' == |input| then
          p == Next(ip', op + lit.value) && output[..p.op] == out
        else
          var piece := Reference(input, input[ip] % 16, ip');
          var o := Apply(piece, out);
          && (p.Next? <==> Fits(o, capacity))
          && (p.Next? ==>
                && ip < p.ip <= |input| && input[p.ip..] == piece.rest
                && op <= p.op <= capacity
                && output[..p.op] == o.value)
  {
    p := DecodeLiterals(input, input[ip] / 16, ip + 1, output, op, capacity);
    if p.Fail? || p.ip >= |input| {
      return;
    }
    if p.ip + 2 > |input| {
      return Fail;
    }
    var middle := p;
    p := DecodeMatch(input, input[ip] % 16, middle.ip, output, middle.op, capacity);
  }

  /** One iteration of the decoder applies the piece at the front of the input. */
  method DecodeSequence(input: seq<byte>, ip: nat, output: array<byte>, op: nat, capacity: nat) returns (p: Progress)
    requires ip < |input| && op <= capacity <= output.Length
    modifies output
    ensures forall i :: (if p.Next? then p.op else capacity) <= i < output.Length ==> output[i] == old(output[i])
    ensures
      var piece := Cut(input[ip..]);
      var o := Apply(piece, old(output[..op]));
      && (p.Next? <==> Fits(o, capacity))
      && (p.Next? ==>
            && ip < p.ip <= |input| && input[p.ip..] == Remaining(piece)
            && op <= p.op <= capacity
            && output[..p.op] == o.value)
  {
    ApplyAt(input, ip, output[..op]);
    p := DecodeAt(input, ip, output, op, capacity);
  }

  /** What one iteration means for the whole: it goes on with the rest, or the whole does not fit. */
  lemma DecodeOn(s: seq<byte>, out: seq<byte>, capacity: nat)
    requires s != []
    ensures
      var o, all := Apply(Cut(s), out), DecodeAfter(s, out);
      if Fits(o, capacity) then all == DecodeAfter(Remaining(Cut(s)), o.value) else !Fits(all, capacity)
  {
    var o := Apply(Cut(s), out);
    DecodeStep(s, out);
    if o.Some? && DecodeAfter(Remaining(Cut(s)), o.value).Some? {
      DecodeAfterGrows(Remaining(Cut(s)), o.value);
    }
  }

  /** decompress_lz4: succeeds exactly on the streams the reference decoder
      accepts and the window output[..capacity] can hold, and then writes exactly
      that output and nothing behind it. */
  method DecompressLz4(input: seq<byte>, output: array<byte>, capacity: nat) returns (r: Result<nat>)
    requires capacity <= output.Length
    modifies output
    ensures r.Ok? <==> Decode(input).Some? && |Decode(input).value| <= capacity
    ensures r.Ok? ==> r.value == |Decode(input).value|
    ensures r.Ok? ==> output[..] == Decode(input).value + old(output[..])[r.value..]
    ensures r.Err? ==> r.error == InvalidArgument && output[capacity..] == old(output[capacity..])
  {
    var ip: nat, op: nat := 0, 0;
    assert input[0..] == input && output[..0] == [];
    while ip < |input|
      invariant ip <= |input| && op <= capacity
      invariant Decode(input) == DecodeAfter(input[ip..], output[..op])
      invariant forall i :: op <= i < output.Length ==> output[i] == old(output[i])
    {
      DecodeOn(input[ip..], output[..op], capacity);
      var p := DecodeSequence(input, ip, output, op, capacity);
      if p.Fail? {
        return Err(InvalidArgument);
      }
      ip, op := p.ip, p.op;
    }
    assert input[ip..] == [];
    assert output[..] == output[..op] + old(output[..])[op..];
    return Ok(op);
  }
}
