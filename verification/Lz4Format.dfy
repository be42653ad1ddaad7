/** The LZ4 block format as a printer, a parser and a meaning.

    A block is a list of sequences, each some literal bytes followed by a back
    reference, and an optional last run of literals without a back reference.
    `Print` writes a block as bytes, `Parse` reads it back, and `Expand` says
    which bytes a block stands for.  The reference decoder `Decode` is the
    composition of the last two; the in-place decoder of src/zram.rs, which
    interleaves reading and copying, is proved against it in module Lz4Codec.
 */
module Lz4Format {
  import opened Prelude
  import Arith
  import Seqs

  datatype Sequence = Sequence(literals: seq<byte>, offset: nat, matchLen: nat)

  datatype Block = Block(matches: seq<Sequence>, tail: Option<seq<byte>>)

  const MIN_MATCH: nat := 4

  /** What the format can express: back references are two bytes wide and at least four bytes long. */
  predicate Encodable(q: Sequence) {
    q.matchLen >= MIN_MATCH && q.offset < 65536
  }

  ghost predicate AllEncodable(ms: seq<Sequence>) {
    forall i :: 0 <= i < |ms| ==> Encodable(ms[i])
  }

  // ---------------------------------------------------------------- printer

  function Nibble(n: nat): (r: nat)
    ensures r < 16
  {
    if n >= 15 then 15 else n
  }

  /** A number as a run of 255s closed by a smaller byte. */
  function LengthBytes(n: nat): seq<byte> {
    if n >= 255 then [255] + LengthBytes(n - 255) else [n]
  }

  /** The bytes that extend a nibble of 15. */
  function Extension(n: nat): seq<byte> {
    if n >= 15 then LengthBytes(n - 15) else []
  }

  /** Token, literal length and literals; the low nibble is given by the caller. */
  function PrintLiterals(literals: seq<byte>, low: nat): seq<byte>
    requires low < 16
  {
    [Nibble(|literals|) * 16 + low] + Extension(|literals|) + literals
  }

  function PrintSequence(q: Sequence): seq<byte>
    requires q.matchLen >= MIN_MATCH
  {
    PrintLiterals(q.literals, Nibble(q.matchLen - MIN_MATCH))
    + [q.offset % 256, q.offset / 256 % 256]
    + Extension(q.matchLen - MIN_MATCH)
  }

  function PrintMatches(ms: seq<Sequence>): seq<byte>
    requires AllEncodable(ms)
  {
    if ms == [] then [] else PrintSequence(ms[0]) + PrintMatches(ms[1..])
  }

  function PrintTail(tail: Option<seq<byte>>): seq<byte> {
    match tail
    case None => []
    case Some(literals) => PrintLiterals(literals, 0)
  }

  function Print(b: Block): seq<byte>
    requires AllEncodable(b.matches)
  {
    PrintMatches(b.matches) + PrintTail(b.tail)
  }

  // ----------------------------------------------------------------- parser

  datatype Length = Length(value: nat, rest: seq<byte>)

  /** Adds bytes to `n` up to and including the first that is not 255.  A
      stream that ends inside the run is not an error at this point. */
  function ReadLength(s: seq<byte>, n: nat): (r: Length)
    ensures |r.rest| <= |s| && r.value >= n
  {
    if s == [] then Length(n, [])
    else if s[0] == 255 then ReadLength(s[1..], n + 255)
    else Length(n + s[0], s[1..])
  }

  function ParseLength(nibble: nat, s: seq<byte>): (r: Length)
    ensures |r.rest| <= |s|
  {
    if nibble == 15 then ReadLength(s, 15) else Length(nibble, s)
  }

  function LittleEndian(low: int, high: int): nat
    requires 0 <= low && 0 <= high
  {
    low + 256 * high
  }

  lemma {:induction false} ReadLengthIsSuffix(s: seq<byte>, n: nat)
    ensures ReadLength(s, n).rest == s[|s| - |ReadLength(s, n).rest|..]
  {
    if s == [] || s[0] < 255 {
    } else {
      ReadLengthIsSuffix(s[1..], n + 255);
    }
  }

  lemma ParseLengthIsSuffix(nibble: nat, s: seq<byte>)
    ensures ParseLength(nibble, s).rest == s[|s| - |ParseLength(nibble, s).rest|..]
  {
    ReadLengthIsSuffix(s, 15);
  }

  /** What stands at the front of a nonempty stream. */
  datatype Piece = Malformed | Final(literals: seq<byte>) | Chunk(q: Sequence, rest: seq<byte>)

  function Cut(s: seq<byte>): (p: Piece)
    requires s != []
    ensures p.Chunk? ==> |p.rest| < |s|
  {
    var lit := ParseLength(s[0] / 16, s[1..]);
    if lit.value > |lit.rest| then Malformed else
    var literals, s2 := lit.rest[..lit.value], lit.rest[lit.value..];
    if s2 == [] then Final(literals)
    else if |s2| < 2 then Malformed else
    var run := ParseLength(s[0] % 16, s2[2..]);
    Chunk(Sequence(literals, LittleEndian(s2[0], s2[1]), run.value + MIN_MATCH), run.rest)
  }

  function Parse(s: seq<byte>): Option<Block>
    decreases |s|
  {
    if s == [] then Some(Block([], None)) else
    match Cut(s)
    case Malformed => None
    case Final(literals) => Some(Block([], Some(literals)))
    case Chunk(q, rest) =>
      match Parse(rest)
      case None => None
      case Some(b) => Some(Block([q] + b.matches, b.tail))
  }

  // ---------------------------------------------------------------- meaning

  /** Appends `n` bytes, each a copy of the byte `offset` places back; source and target may overlap. */
  function CopyMatch(out: seq<byte>, offset: nat, n: nat): (r: seq<byte>)
    requires 1 <= offset <= |out|
    ensures |r| == |out| + n && out <= r
  {
    if n == 0 then out else
    var p := CopyMatch(out, offset, n - 1);
    p + [p[|p| - offset]]
  }

  function ExpandMatches(ms: seq<Sequence>, out: seq<byte>): Option<seq<byte>>
    decreases |ms|
  {
    if ms == [] then Some(out) else
    var out' := out + ms[0].literals;
    if ms[0].offset == 0 || ms[0].offset > |out'| then None
    else ExpandMatches(ms[1..], CopyMatch(out', ms[0].offset, ms[0].matchLen))
  }

  /** The bytes `b` stands for after `out`, or None if a back reference leaves the output. */
  function Expand(b: Block, out: seq<byte>): Option<seq<byte>> {
    match ExpandMatches(b.matches, out)
    case None => None
    case Some(o) => Some(if b.tail.Some? then o + b.tail.value else o)
  }

  lemma ExpandCons(q: Sequence, b: Block, out: seq<byte>)
    ensures Expand(Block([q] + b.matches, b.tail), out) ==
            if q.offset == 0 || q.offset > |out + q.literals| then None
            else Expand(b, CopyMatch(out + q.literals, q.offset, q.matchLen))
  {
    assert ([q] + b.matches)[1..] == b.matches;
  }

  function DecodeAfter(s: seq<byte>, out: seq<byte>): Option<seq<byte>> {
    match Parse(s)
    case None => None
    case Some(b) => Expand(b, out)
  }

  function Decode(s: seq<byte>): Option<seq<byte>> {
    DecodeAfter(s, [])
  }

  // --------------------------------------------------- parsing what is printed

  lemma {:induction false} ReadLengthBytes(m: nat, n: nat, rest: seq<byte>)
    ensures ReadLength(LengthBytes(m) + rest, n) == Length(n + m, rest)
  {
    if m >= 255 {
      var more := LengthBytes(m - 255);
      Seqs.Assoc([255], more, rest);
      Seqs.ConsTail(255, more + rest);
      ReadLengthBytes(m - 255, n + 255, rest);
    } else {
      Seqs.ConsTail(m, rest);
    }
  }

  lemma ParseExtension(n: nat, rest: seq<byte>)
    ensures ParseLength(Nibble(n), Extension(n) + rest) == Length(n, rest)
  {
    if n >= 15 {
      ReadLengthBytes(n - 15, 15, rest);
    } else {
      assert [] + rest == rest;
    }
  }

  /** Reading back the token and the literals of one sequence. */
  lemma ParseLiterals(literals: seq<byte>, low: nat, rest: seq<byte>)
    requires low < 16
    ensures
      var s := PrintLiterals(literals, low) + rest;
      && s[0] / 16 == Nibble(|literals|) && s[0] % 16 == low
      && ParseLength(s[0] / 16, s[1..]) == Length(|literals|, literals + rest)
  {
    var token: byte := Nibble(|literals|) * 16 + low;
    var ext := Extension(|literals|);
    Seqs.Assoc([token] + ext, literals, rest);
    Seqs.Assoc([token], ext, literals + rest);
    Seqs.ConsTail(token, ext + (literals + rest));
    ParseExtension(|literals|, literals + rest);
  }

  lemma CutTail(literals: seq<byte>)
    ensures Cut(PrintLiterals(literals, 0)) == Final(literals)
  {
    ParseLiterals(literals, 0, []);
    assert PrintLiterals(literals, 0) + [] == PrintLiterals(literals, 0);
    assert literals + [] == literals;
  }

  /** How a stream is cut, in terms of its pieces. */
  lemma CutPieces(s: seq<byte>, q: Sequence, after: seq<byte>, rest: seq<byte>)
    requires s != [] && |after| >= 2 && q.matchLen >= MIN_MATCH
    requires ParseLength(s[0] / 16, s[1..]) == Length(|q.literals|, q.literals + after)
    requires q.offset == LittleEndian(after[0], after[1])
    requires ParseLength(s[0] % 16, after[2..]) == Length(q.matchLen - MIN_MATCH, rest)
    ensures Cut(s) == Chunk(q, rest)
  {
    Seqs.Split(q.literals, after);
  }

  lemma OffsetBytes(offset: nat)
    requires offset < 65536
    ensures LittleEndian(offset % 256, offset / 256 % 256) == offset
  {
  }

  /** A printed sequence, regrouped the way the parser meets it. */
  lemma SplitPrinted(q: Sequence, rest: seq<byte>, low: seq<byte>, offset: seq<byte>, ext: seq<byte>)
    requires q.matchLen >= MIN_MATCH
    requires low == PrintLiterals(q.literals, Nibble(q.matchLen - MIN_MATCH))
    requires offset == [q.offset % 256, q.offset / 256 % 256]
    requires ext == Extension(q.matchLen - MIN_MATCH)
    ensures PrintSequence(q) + rest == low + (offset + (ext + rest))
  {
    Seqs.Assoc(low + offset, ext, rest);
    Seqs.Assoc(low, offset, ext + rest);
  }

  lemma CutPrinted(q: Sequence, rest: seq<byte>)
    requires Encodable(q)
    ensures Cut(PrintSequence(q) + rest) == Chunk(q, rest)
  {
    var m := q.matchLen - MIN_MATCH;
    var low, ext := PrintLiterals(q.literals, Nibble(m)), Extension(m);
    var offset: seq<byte> := [q.offset % 256, q.offset / 256 % 256];
    var after := offset + (ext + rest);
    SplitPrinted(q, rest, low, offset, ext);
    ParseLiterals(q.literals, Nibble(m), after);
    Seqs.Split(offset, ext + rest);
    ParseExtension(m, rest);
    OffsetBytes(q.offset);
    CutPieces(low + after, q, after, rest);
  }

  lemma ParseCut(s: seq<byte>, q: Sequence, rest: seq<byte>, b: Block)
    requires s != [] && Cut(s) == Chunk(q, rest) && Parse(rest) == Some(b)
    ensures Parse(s) == Some(Block([q] + b.matches, b.tail))
  {
  }

  /** Parsing undoes printing, for every block the format can express. */
  lemma {:induction false} ParsePrint(b: Block)
    requires AllEncodable(b.matches)
    ensures Parse(Print(b)) == Some(b)
    decreases |b.matches|
  {
    if b.matches == [] {
      assert [] + PrintTail(b.tail) == PrintTail(b.tail);
      if b.tail.Some? {
        CutTail(b.tail.value);
      }
    } else {
      var q, rest := b.matches[0], Block(b.matches[1..], b.tail);
      ParsePrint(rest);
      CutPrinted(q, Print(rest));
      Seqs.Assoc(PrintSequence(q), PrintMatches(rest.matches), PrintTail(b.tail));
      assert [q] + rest.matches == b.matches;
      ParseCut(Print(b), q, Print(rest), rest);
    }
  }

  // ------------------------------------------------------------- copy semantics

  /** One more byte of a copy. */
  lemma CopyMatchNext(out: seq<byte>, offset: nat, m: nat, p: seq<byte>, b: byte)
    requires 1 <= offset <= |out| && m >= 1 && p == CopyMatch(out, offset, m - 1) && b == p[|p| - offset]
    ensures CopyMatch(out, offset, m) == p + [b]
  {
  }

  /** A copy is what begins with the original and then repeats itself `offset` places further on. */
  lemma {:induction false} CopyMatchIs(out: seq<byte>, offset: nat, m: nat, y: seq<byte>)
    requires 1 <= offset <= |out| && |y| == |out| + m && y[..|out|] == out
    requires forall k :: 0 <= k < m ==> y[|out|..][k] == y[|out| - offset..][k]
    ensures CopyMatch(out, offset, m) == y
  {
    if m == 0 {
      assert y[..|out|] == y;
    } else {
      var last := |y| - 1;
      var p := y[..last];
      assert forall k :: 0 <= k < m - 1 ==>
        p[|out|..][k] == y[|out|..][k] && p[|out| - offset..][k] == y[|out| - offset..][k];
      CopyMatchIs(out, offset, m - 1, p);
      assert y[|out|..][m - 1] == y[|out| - offset..][m - 1];
      CopyMatchNext(out, offset, m, p, y[last]);
      Seqs.TakeLast(y, |y|);
      assert y[..|y|] == y;
    }
  }

  /** Every copied byte equals the byte `offset` places before it. */
  lemma {:induction false} CopyMatchBack(out: seq<byte>, offset: nat, n: nat, i: nat)
    requires 1 <= offset <= |out| <= i < |out| + n
    ensures CopyMatch(out, offset, n)[i] == CopyMatch(out, offset, n)[i - offset]
  {
    if i == |out| + n - 1 {
    } else {
      CopyMatchBack(out, offset, n - 1, i);
    }
  }

  /** A sequence in which every element from `base` on equals the one `d` places before it is periodic there. */
  lemma {:induction false} BackIsPeriodic(r: seq<byte>, base: nat, d: nat, j: nat)
    requires 1 <= d <= base && base + j < |r|
    requires forall i :: base <= i < |r| ==> r[i] == r[i - d]
    ensures r[base + j] == r[base - d + j % d]
    decreases j
  {
    if j >= d {
      BackIsPeriodic(r, base, d, j - d);
      Arith.DivModStep(j, d);
    } else {
      Arith.DivModUnique(j, d, 0, j);
    }
  }

  /** An overlapping copy repeats the last `offset` bytes periodically. */
  lemma CopyMatchPeriodic(out: seq<byte>, offset: nat, n: nat, j: nat)
    requires 1 <= offset <= |out| && j < n
    ensures CopyMatch(out, offset, n)[|out| + j] == out[|out| - offset + j % offset]
  {
    var r := CopyMatch(out, offset, n);
    forall i | |out| <= i < |r|
      ensures r[i] == r[i - offset]
    {
      CopyMatchBack(out, offset, n, i);
    }
    BackIsPeriodic(r, |out|, offset, j);
  }

  // ------------------------------------------------------------------ growth

  lemma {:induction false} ExpandMatchesGrows(ms: seq<Sequence>, out: seq<byte>)
    requires ExpandMatches(ms, out).Some?
    ensures out <= ExpandMatches(ms, out).value
    decreases |ms|
  {
    if ms == [] {
    } else {
      var out' := out + ms[0].literals;
      var copied := CopyMatch(out', ms[0].offset, ms[0].matchLen);
      assert out <= out' <= copied;
      ExpandMatchesGrows(ms[1..], copied);
    }
  }

  /** The output after one piece, or None if its back reference leaves the output. */
  function Apply(p: Piece, out: seq<byte>): Option<seq<byte>> {
    match p
    case Malformed => None
    case Final(literals) => Some(out + literals)
    case Chunk(q, _) =>
      if q.offset == 0 || q.offset > |out + q.literals| then None
      else Some(CopyMatch(out + q.literals, q.offset, q.matchLen))
  }

  function Remaining(p: Piece): seq<byte> {
    if p.Chunk? then p.rest else []
  }

  /** The two-phase decoder, read piece by piece. */
  lemma DecodeStep(s: seq<byte>, out: seq<byte>)
    requires s != []
    ensures
      var o := Apply(Cut(s), out);
      DecodeAfter(s, out) == if o.None? then None else DecodeAfter(Remaining(Cut(s)), o.value)
  {
    if Cut(s).Chunk? && Parse(Cut(s).rest).Some? {
      ExpandCons(Cut(s).q, Parse(Cut(s).rest).value, out);
    }
  }

  /** A decoder never takes back what it has written. */
  lemma DecodeAfterGrows(s: seq<byte>, out: seq<byte>)
    requires DecodeAfter(s, out).Some?
    ensures out <= DecodeAfter(s, out).value
  {
    var b := Parse(s).value;
    ExpandMatchesGrows(b.matches, out);
    assert ExpandMatches(b.matches, out).value <= Expand(b, out).value;
  }

  // -------------------------------------------------------------- size bounds

  /** The number of bytes the sequences stand for. */
  function SpanOf(ms: seq<Sequence>): nat {
    if ms == [] then 0 else |ms[0].literals| + ms[0].matchLen + SpanOf(ms[1..])
  }

  function Span(b: Block): nat {
    SpanOf(b.matches) + (if b.tail.Some? then |b.tail.value| else 0)
  }

  lemma {:induction false} ExpandMatchesLength(ms: seq<Sequence>, out: seq<byte>)
    requires ExpandMatches(ms, out).Some?
    ensures |ExpandMatches(ms, out).value| == |out| + SpanOf(ms)
    decreases |ms|
  {
    if ms == [] {
    } else {
      var out' := out + ms[0].literals;
      ExpandMatchesLength(ms[1..], CopyMatch(out', ms[0].offset, ms[0].matchLen));
    }
  }

  lemma {:induction false} LengthBytesSize(n: nat)
    ensures |LengthBytes(n)| == n / 255 + 1
  {
    if n < 255 {
    } else {
      LengthBytesSize(n - 255);
    }
  }

  lemma ExtensionSize(n: nat)
    ensures |Extension(n)| <= (n + 240) / 255
  {
    if n >= 15 {
      LengthBytesSize(n - 15);
    }
  }

  lemma PrintSequenceSize(q: Sequence)
    requires q.matchLen >= MIN_MATCH
    ensures |PrintSequence(q)| <= |q.literals| + q.matchLen + (|q.literals| + q.matchLen) / 255
  {
    ExtensionSize(|q.literals|);
    ExtensionSize(q.matchLen - MIN_MATCH);
  }

  lemma {:induction false} PrintMatchesSize(ms: seq<Sequence>)
    requires AllEncodable(ms)
    ensures |PrintMatches(ms)| <= SpanOf(ms) + SpanOf(ms) / 255
  {
    if ms == [] {
    } else {
      PrintSequenceSize(ms[0]);
      PrintMatchesSize(ms[1..]);
    }
  }

  /** A printed block exceeds the bytes it stands for by at most one in 255, and two. */
  lemma PrintSize(b: Block)
    requires AllEncodable(b.matches)
    ensures |Print(b)| <= Span(b) + Span(b) / 255 + 2
  {
    PrintMatchesSize(b.matches);
    if b.tail.Some? {
      ExtensionSize(|b.tail.value|);
    }
  }

  lemma {:induction false} ReadLengthSize(s: seq<byte>, n: nat)
    ensures ReadLength(s, n).value <= n + 255 * (|s| - |ReadLength(s, n).rest|)
  {
    if s == [] || s[0] < 255 {
    } else {
      ReadLengthSize(s[1..], n + 255);
    }
  }

  lemma CutSpan(s: seq<byte>)
    requires s != [] && Cut(s).Chunk?
    ensures |Cut(s).q.literals| + Cut(s).q.matchLen <= 255 * (|s| - |Cut(s).rest|)
  {
    var lit := ParseLength(s[0] / 16, s[1..]);
    ReadLengthSize(lit.rest[lit.value..][2..], 15);
  }

  lemma {:induction false} ParseSpan(s: seq<byte>)
    requires Parse(s).Some?
    ensures Span(Parse(s).value) <= 255 * |s|
    decreases |s|
  {
    if s == [] || !Cut(s).Chunk? {
    } else {
      var Chunk(q, rest) := Cut(s);
      CutSpan(s);
      ParseSpan(rest);
      var b := Parse(rest).value;
      assert ([q] + b.matches)[1..] == b.matches;
    }
  }

  /** Whatever the bytes, an accepted stream decodes to at most 255 times its own length. */
  lemma DecodeSize(s: seq<byte>)
    requires Decode(s).Some?
    ensures |Decode(s).value| <= 255 * |s|
  {
    ExpandMatchesLength(Parse(s).value.matches, []);
    ParseSpan(s);
  }
}
