/** The LZ4 block format of src/zram.rs as a grammar, independent of the printer and the parser.

    The predicates lay a stream out byte by byte.  The parser accepts exactly
    the streams the grammar gives a block for, with exactly that block; among
    them are streams no compressor writes: a last token may have any low
    nibble, and the extension of a last match length may lack its closing byte.
 */
module Lz4Grammar {
  import opened Prelude
  import opened Lz4Format
  import Seqs

  /** A nibble and its extension bytes stand for `n`: 255s and a closing byte follow a nibble of 15. */
  predicate Written(nibble: nat, ext: seq<byte>, n: nat) {
    if nibble < 15 then ext == [] && n == nibble
    else
      && nibble == 15 && ext != [] && ext[|ext| - 1] < 255
      && (forall i :: 0 <= i < |ext| - 1 ==> ext[i] == 255)
      && n == 15 + 255 * (|ext| - 1) + ext[|ext| - 1]
  }

  /** The same at the end of a stream that breaks off within the 255s. */
  predicate BrokenOff(nibble: nat, ext: seq<byte>, n: nat) {
    nibble == 15 && (forall i :: 0 <= i < |ext| ==> ext[i] == 255) && n == 15 + 255 * |ext|
  }

  /** Token, extension and literals, and nothing after them. */
  predicate Closing(s: seq<byte>, token: byte, ext: seq<byte>, literals: seq<byte>) {
    s == [token] + (ext + literals) && Written(token / 16, ext, |literals|)
  }

  /** Token, extension and literals, two bytes of offset, least significant first,
      and the extension of the match length. */
  predicate Opening(s: seq<byte>, token: byte, litExt: seq<byte>, q: Sequence, low: byte, high: byte,
                    runExt: seq<byte>, rest: seq<byte>)
  {
    && s == [token] + (litExt + (q.literals + ([low, high] + (runExt + rest))))
    && Written(token / 16, litExt, |q.literals|)
    && q.offset == (low as int) + 256 * (high as int)
    && q.matchLen >= 4
    && (Written(token % 16, runExt, q.matchLen - 4) || (rest == [] && BrokenOff(token % 16, runExt, q.matchLen - 4)))
  }

  ghost predicate Ends(s: seq<byte>, literals: seq<byte>) {
    exists token, ext :: Closing(s, token, ext, literals)
  }

  ghost predicate Begins(s: seq<byte>, q: Sequence, rest: seq<byte>) {
    exists token, litExt, low, high, runExt :: Opening(s, token, litExt, q, low, high, runExt, rest)
  }

  /** `s` spells `b`. */
  ghost predicate Spells(s: seq<byte>, b: Block)
    decreases |b.matches|
  {
    if b.matches == [] then if b.tail.None? then s == [] else Ends(s, b.tail.value)
    else exists rest :: Begins(s, b.matches[0], rest) && Spells(rest, Block(b.matches[1..], b.tail))
  }

  // ------------------------------------------------------------------ lengths

  lemma {:induction false} ReadWritten(ext: seq<byte>, n: nat, rest: seq<byte>)
    requires ext != [] && ext[|ext| - 1] < 255 && forall i :: 0 <= i < |ext| - 1 ==> ext[i] == 255
    ensures ReadLength(ext + rest, n) == Length(n + 255 * (|ext| - 1) + ext[|ext| - 1], rest)
  {
    var x, more := ext[0], ext[1..];
    assert ext == [x] + more;
    Seqs.Assoc([x], more, rest);
    Seqs.ConsTail(x, more + rest);
    if |ext| == 1 {
      assert more + rest == rest;
    } else {
      ReadWritten(more, n + 255, rest);
    }
  }

  lemma {:induction false} ReadBrokenOff(ext: seq<byte>, n: nat)
    requires forall i :: 0 <= i < |ext| ==> ext[i] == 255
    ensures ReadLength(ext, n) == Length(n + 255 * |ext|, [])
  {
    if ext == [] {
    } else {
      ReadBrokenOff(ext[1..], n + 255);
    }
  }

  lemma ParseWritten(nibble: nat, ext: seq<byte>, n: nat, rest: seq<byte>)
    requires Written(nibble, ext, n) || (rest == [] && BrokenOff(nibble, ext, n))
    ensures ParseLength(nibble, ext + rest) == Length(n, rest)
  {
    if nibble < 15 {
      assert [] + rest == rest;
    } else if Written(nibble, ext, n) {
      ReadWritten(ext, 15, rest);
    } else {
      assert ext + [] == ext;
      ReadBrokenOff(ext, 15);
    }
  }

  /** What was read, in front of what is left. */
  lemma {:induction false} ReadTakes(s: seq<byte>, n: nat) returns (ext: seq<byte>)
    ensures
      var l := ReadLength(s, n);
      && s == ext + l.rest
      && (if ext != [] && ext[|ext| - 1] < 255 then
            (forall i :: 0 <= i < |ext| - 1 ==> ext[i] == 255) && l.value == n + 255 * (|ext| - 1) + ext[|ext| - 1]
          else
            l.rest == [] && (forall i :: 0 <= i < |ext| ==> ext[i] == 255) && l.value == n + 255 * |ext|)
  {
    if s == [] {
      ext := [];
    } else if s[0] < 255 {
      ext := s[..1];
    } else {
      var more := ReadTakes(s[1..], n + 255);
      ext := [s[0]] + more;
      Seqs.Assoc([s[0]], more, ReadLength(s, n).rest);
    }
  }

  lemma ParseTakes(nibble: nat, s: seq<byte>) returns (ext: seq<byte>)
    requires nibble < 16
    ensures
      var l := ParseLength(nibble, s);
      && s == ext + l.rest
      && (Written(nibble, ext, l.value) || (l.rest == [] && BrokenOff(nibble, ext, l.value)))
  {
    if nibble == 15 {
      ext := ReadTakes(s, 15);
    } else {
      ext := [];
    }
  }

  // ---------------------------------------------------------------- sequences

  lemma CutOpening(s: seq<byte>, token: byte, litExt: seq<byte>, q: Sequence, low: byte, high: byte,
                   runExt: seq<byte>, rest: seq<byte>)
    requires Opening(s, token, litExt, q, low, high, runExt, rest)
    ensures Cut(s) == Chunk(q, rest)
  {
    var offset := [low, high];
    var after := offset + (runExt + rest);
    Seqs.ConsTail(token, litExt + (q.literals + after));
    ParseWritten(token / 16, litExt, |q.literals|, q.literals + after);
    Seqs.Split(offset, runExt + rest);
    ParseWritten(token % 16, runExt, q.matchLen - 4, rest);
    CutPieces(s, q, after, rest);
  }

  lemma CutClosing(s: seq<byte>, token: byte, ext: seq<byte>, literals: seq<byte>)
    requires Closing(s, token, ext, literals)
    ensures Cut(s) == Final(literals)
  {
    Seqs.ConsTail(token, ext + literals);
    ParseWritten(token / 16, ext, |literals|, literals);
  }

  lemma LiteralsFit(s: seq<byte>, l: Length)
    requires s != [] && l == ParseLength(s[0] / 16, s[1..]) && Cut(s) != Malformed
    ensures l.value <= |l.rest|
    ensures Cut(s).Final? ==> Cut(s).literals == l.rest[..l.value] && l.rest[l.value..] == []
    ensures Cut(s).Chunk? ==>
      var after := l.rest[l.value..];
      && |after| >= 2 && Cut(s).q.literals == l.rest[..l.value]
      && Cut(s).q.offset == LittleEndian(after[0], after[1])
      && ParseLength(s[0] % 16, after[2..]) == Length(Cut(s).q.matchLen - MIN_MATCH, Cut(s).rest)
  {
  }

  lemma JoinLiterals(s: seq<byte>, ext: seq<byte>, literals: seq<byte>, after: seq<byte>, rest: seq<byte>)
    requires s != [] && s[1..] == ext + rest && rest == literals + after
    ensures s == [s[0]] + (ext + (literals + after))
  {
    assert s == [s[0]] + s[1..];
  }

  /** The literals of a stream that is not malformed, laid out. */
  lemma TakeLiterals(s: seq<byte>) returns (ext: seq<byte>, literals: seq<byte>, after: seq<byte>)
    requires s != [] && Cut(s) != Malformed
    ensures s == [s[0]] + (ext + (literals + after)) && Written(s[0] / 16, ext, |literals|)
    ensures Cut(s).Final? ==> Cut(s).literals == literals && after == []
    ensures Cut(s).Chunk? ==>
      && |after| >= 2 && Cut(s).q.literals == literals
      && Cut(s).q.offset == LittleEndian(after[0], after[1])
      && ParseLength(s[0] % 16, after[2..]) == Length(Cut(s).q.matchLen - MIN_MATCH, Cut(s).rest)
  {
    var l := ParseLength(s[0] / 16, s[1..]);
    ext := ParseTakes(s[0] / 16, s[1..]);
    LiteralsFit(s, l);
    literals, after := l.rest[..l.value], l.rest[l.value..];
    Seqs.TakeDrop(l.rest, l.value);
    JoinLiterals(s, ext, literals, after, l.rest);
  }

  lemma OpeningIs(s: seq<byte>, litExt: seq<byte>, q: Sequence, after: seq<byte>, runExt: seq<byte>, rest: seq<byte>)
    requires s != [] && s == [s[0]] + (litExt + (q.literals + after)) && Written(s[0] / 16, litExt, |q.literals|)
    requires |after| >= 2 && q.offset == LittleEndian(after[0], after[1]) && q.matchLen >= 4
    requires after[2..] == runExt + rest
    requires Written(s[0] % 16, runExt, q.matchLen - 4) || (rest == [] && BrokenOff(s[0] % 16, runExt, q.matchLen - 4))
    ensures Opening(s, s[0], litExt, q, after[0], after[1], runExt, rest)
  {
    assert after == [after[0], after[1]] + after[2..];
  }

  lemma ChunkBegins(s: seq<byte>, q: Sequence, rest: seq<byte>)
    requires s != [] && Cut(s) == Chunk(q, rest)
    ensures Begins(s, q, rest)
  {
    var litExt, literals, after := TakeLiterals(s);
    var runExt := ParseTakes(s[0] % 16, after[2..]);
    OpeningIs(s, litExt, q, after, runExt, rest);
  }

  lemma FinalEnds(s: seq<byte>)
    requires s != [] && Cut(s).Final?
    ensures Ends(s, Cut(s).literals)
  {
    var ext, literals, after := TakeLiterals(s);
    assert literals + after == literals;
    assert Closing(s, s[0], ext, literals);
  }

  lemma BeginsCut(s: seq<byte>, q: Sequence, rest: seq<byte>)
    ensures Begins(s, q, rest) <==> s != [] && Cut(s) == Chunk(q, rest)
  {
    if Begins(s, q, rest) {
      var token, litExt, low, high, runExt :| Opening(s, token, litExt, q, low, high, runExt, rest);
      CutOpening(s, token, litExt, q, low, high, runExt, rest);
    }
    if s != [] && Cut(s) == Chunk(q, rest) {
      ChunkBegins(s, q, rest);
    }
  }

  lemma EndsCut(s: seq<byte>, literals: seq<byte>)
    ensures Ends(s, literals) <==> s != [] && Cut(s) == Final(literals)
  {
    if Ends(s, literals) {
      var token, ext :| Closing(s, token, ext, literals);
      CutClosing(s, token, ext, literals);
    }
    if s != [] && Cut(s) == Final(literals) {
      FinalEnds(s);
    }
  }

  // ------------------------------------------------------------------- streams

  lemma SpellsFirst(s: seq<byte>, q: Sequence, rest: seq<byte>, b: Block)
    requires Begins(s, q, rest) && Spells(rest, b)
    ensures Spells(s, Block([q] + b.matches, b.tail))
  {
    Seqs.ConsTail(q, b.matches);
  }

  lemma {:induction false} ParseSpells(s: seq<byte>)
    requires Parse(s).Some?
    ensures Spells(s, Parse(s).value)
    decreases |s|
  {
    if s == [] {
    } else if Cut(s).Final? {
      EndsCut(s, Cut(s).literals);
    } else {
      var q, rest := Cut(s).q, Cut(s).rest;
      BeginsCut(s, q, rest);
      ParseSpells(rest);
      SpellsFirst(s, q, rest, Parse(rest).value);
    }
  }

  lemma FirstAndRest(b: Block)
    requires b.matches != []
    ensures b == Block([b.matches[0]] + b.matches[1..], b.tail)
  {
  }

  lemma SpellsOn(s: seq<byte>, b: Block) returns (rest: seq<byte>, b': Block)
    requires b.matches != [] && Spells(s, b)
    ensures s != [] && Cut(s) == Chunk(b.matches[0], rest) && Spells(rest, b')
    ensures b' == Block(b.matches[1..], b.tail) && b == Block([b.matches[0]] + b'.matches, b'.tail)
  {
    b' := Block(b.matches[1..], b.tail);
    rest :| Begins(s, b.matches[0], rest) && Spells(rest, b');
    BeginsCut(s, b.matches[0], rest);
    FirstAndRest(b);
  }

  lemma {:induction false} SpellsParse(s: seq<byte>, b: Block)
    requires Spells(s, b)
    ensures Parse(s) == Some(b)
    decreases |b.matches|
  {
    if b.matches == [] {
      if b.tail.Some? {
        EndsCut(s, b.tail.value);
      }
    } else {
      var rest, b' := SpellsOn(s, b);
      SpellsParse(rest, b');
      ParseCut(s, b.matches[0], rest, b');
    }
  }

  /** The parser accepts exactly the streams that spell a block, as that block. */
  lemma ParseExactly(s: seq<byte>, b: Block)
    ensures Parse(s) == Some(b) <==> Spells(s, b)
  {
    if Parse(s) == Some(b) {
      ParseSpells(s);
    }
    if Spells(s, b) {
      SpellsParse(s, b);
    }
  }

  // ------------------------------------------------------------------ meaning

  /** From `start` to `end` every byte equals the one `d` places before it. */
  predicate Copied(y: seq<byte>, start: nat, end: nat, d: nat)
    requires d <= start && end <= |y|
  {
    forall i :: start <= i < end ==> y[i] == y[i - d]
  }

  /** From position `at` on `y` consists of the literals and copies of `ms`, and then of `tail`. */
  predicate Describes(ms: seq<Sequence>, tail: seq<byte>, y: seq<byte>, at: nat)
    decreases |ms|
  {
    if ms == [] then at <= |y| && y[at..] == tail else
    var d, start := ms[0].offset, at + |ms[0].literals|;
    var end := start + ms[0].matchLen;
    && end <= |y| && y[at..start] == ms[0].literals
    && 1 <= d <= start && Copied(y, start, end, d)
    && Describes(ms[1..], tail, y, end)
  }

  /** Where a copy belongs in what begins with `out`. */
  lemma CopyIsCopied(out: seq<byte>, d: nat, m: nat, y: seq<byte>)
    requires 1 <= d <= |out|
    ensures CopyMatch(out, d, m) <= y <==> out <= y && |out| + m <= |y| && Copied(y, |out|, |out| + m, d)
  {
    var r := CopyMatch(out, d, m);
    if r <= y {
      forall i | |out| <= i < |out| + m
        ensures y[i] == y[i - d]
      {
        CopyMatchBack(out, d, m, i);
        assert y[i] == r[i] && y[i - d] == r[i - d];
      }
    }
    if out <= y && |out| + m <= |y| && Copied(y, |out|, |out| + m, d) {
      var front := y[..|out| + m];
      forall k | 0 <= k < m
        ensures front[|out|..][k] == front[|out| - d..][k]
      {
        assert y[|out| + k] == y[|out| + k - d];
      }
      CopyMatchIs(out, d, m, front);
    }
  }

  lemma LiteralsLaid(out: seq<byte>, literals: seq<byte>, y: seq<byte>, at: nat, start: nat)
    requires out <= y && at == |out| && start == at + |literals|
    ensures out + literals <= y <==> start <= |y| && y[at..start] == literals
  {
    if start <= |y| && y[at..start] == literals {
      Seqs.TakeMore(y, at, start);
      assert out == y[..at];
    }
    if out + literals <= y {
      Seqs.Split(out, literals);
      assert y[..start][at..] == y[at..start];
    }
  }

  /** Where one sequence belongs in what begins with `out`. */
  lemma SequenceLaid(q: Sequence, out: seq<byte>, y: seq<byte>, at: nat, start: nat, end: nat)
    requires out <= y && at == |out| && start == at + |q.literals| && end == start + q.matchLen
    requires 1 <= q.offset <= start
    ensures CopyMatch(out + q.literals, q.offset, q.matchLen) <= y <==>
            end <= |y| && y[at..start] == q.literals && Copied(y, start, end, q.offset)
  {
    LiteralsLaid(out, q.literals, y, at, start);
    CopyIsCopied(out + q.literals, q.offset, q.matchLen, y);
  }

  lemma DescribesFirst(ms: seq<Sequence>, tail: seq<byte>, y: seq<byte>, at: nat, start: nat, end: nat)
    requires ms != [] && start == at + |ms[0].literals| && end == start + ms[0].matchLen
    ensures Describes(ms, tail, y, at) <==>
            && end <= |y| && y[at..start] == ms[0].literals && 1 <= ms[0].offset <= start
            && Copied(y, start, end, ms[0].offset) && Describes(ms[1..], tail, y, end)
  {
  }

  /** The sequences expand to what they describe. */
  lemma {:induction false} ExpandDescribed(ms: seq<Sequence>, tail: seq<byte>, out: seq<byte>, y: seq<byte>, at: nat)
    requires out <= y && at == |out|
    ensures Describes(ms, tail, y, at) <==> ExpandMatches(ms, out).Some? && ExpandMatches(ms, out).value + tail == y
    decreases |ms|
  {
    if ms == [] {
      assert y == out + y[at..];
      Seqs.Split(out, tail);
    } else {
      var q, start := ms[0], at + |ms[0].literals|;
      var end := start + q.matchLen;
      DescribesFirst(ms, tail, y, at, start, end);
      if 1 <= q.offset <= start {
        var copy := CopyMatch(out + q.literals, q.offset, q.matchLen);
        SequenceLaid(q, out, y, at, start, end);
        if copy <= y {
          ExpandDescribed(ms[1..], tail, copy, y, end);
        } else if ExpandMatches(ms[1..], copy).Some? {
          ExpandMatchesGrows(ms[1..], copy);
        }
      }
    }
  }

  /** `b` stands for `y`. */
  predicate StandsFor(b: Block, y: seq<byte>) {
    Describes(b.matches, if b.tail.Some? then b.tail.value else [], y, 0)
  }

  lemma ExpandExactly(b: Block, y: seq<byte>)
    ensures Expand(b, []) == Some(y) <==> StandsFor(b, y)
  {
    var tail := if b.tail.Some? then b.tail.value else [];
    ExpandDescribed(b.matches, tail, [], y, 0);
    if ExpandMatches(b.matches, []).Some? {
      var o := ExpandMatches(b.matches, []).value;
      assert o + [] == o;
    }
  }

  /** The decoder, said without parsing or copying: a stream decodes to `y`
      exactly if it spells a block that stands for `y`. */
  lemma DecodeExactly(s: seq<byte>, y: seq<byte>)
    ensures Decode(s) == Some(y) <==> exists b :: Spells(s, b) && StandsFor(b, y)
  {
    if Decode(s) == Some(y) {
      var b := Parse(s).value;
      ParseExactly(s, b);
      ExpandExactly(b, y);
    }
    if exists b :: Spells(s, b) && StandsFor(b, y) {
      var b :| Spells(s, b) && StandsFor(b, y);
      ParseExactly(s, b);
      ExpandExactly(b, y);
    }
  }

  // ------------------------------------------------------------------ printing

  lemma {:induction false} LengthBytesWritten(n: nat)
    ensures
      var ext := LengthBytes(n);
      && ext != [] && ext[|ext| - 1] < 255 && (forall i :: 0 <= i < |ext| - 1 ==> ext[i] == 255)
      && n == 255 * (|ext| - 1) + ext[|ext| - 1]
  {
    if n < 255 {
    } else {
      LengthBytesWritten(n - 255);
    }
  }

  lemma ExtensionWritten(n: nat)
    ensures Written(Nibble(n), Extension(n), n)
  {
    if n >= 15 {
      LengthBytesWritten(n - 15);
    }
  }

  /** What begins with printed literals, laid out. */
  lemma PrintedLiterals(literals: seq<byte>, low: nat, after: seq<byte>, ext: seq<byte>)
    requires low < 16 && ext == Extension(|literals|)
    ensures
      var s := PrintLiterals(literals, low) + after;
      && s == [s[0]] + (ext + (literals + after)) && Written(s[0] / 16, ext, |literals|) && s[0] % 16 == low
  {
    var token: byte := Nibble(|literals|) * 16 + low;
    ExtensionWritten(|literals|);
    Seqs.Assoc([token], ext, literals);
    Seqs.Assoc([token], ext + literals, after);
    Seqs.Assoc(ext, literals, after);
  }

  /** The compressor closes every length it writes. */
  lemma PrintSequenceOpens(q: Sequence, rest: seq<byte>) returns (litExt: seq<byte>, runExt: seq<byte>)
    requires Encodable(q)
    ensures
      var s := PrintSequence(q) + rest;
      && Opening(s, s[0], litExt, q, q.offset % 256, q.offset / 256, runExt, rest)
      && Written(s[0] % 16, runExt, q.matchLen - 4)
  {
    var m := q.matchLen - 4;
    litExt, runExt := Extension(|q.literals|), Extension(m);
    var offset: seq<byte> := [q.offset % 256, q.offset / 256 % 256];
    var after := offset + (runExt + rest);
    SplitPrinted(q, rest, PrintLiterals(q.literals, Nibble(m)), offset, runExt);
    PrintedLiterals(q.literals, Nibble(m), after, litExt);
    ExtensionWritten(m);
    OffsetBytes(q.offset);
    Seqs.Split(offset, runExt + rest);
    OpeningIs(PrintSequence(q) + rest, litExt, q, after, runExt, rest);
  }

  /** The last literals have a token with an empty low nibble. */
  lemma PrintTailCloses(literals: seq<byte>) returns (ext: seq<byte>)
    ensures
      var s := PrintTail(Some(literals));
      s != [] && s[0] % 16 == 0 && Closing(s, s[0], ext, literals)
  {
    ext := Extension(|literals|);
    ExtensionWritten(|literals|);
    Seqs.Assoc([PrintTail(Some(literals))[0]], ext, literals);
  }
}
