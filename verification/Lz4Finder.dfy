/** What the match finder of src/zram.rs finds, said without its hash table.

    The finder walks over the input and at each position it visits asks its
    table for an earlier one.  `Walk` says what the answer is in terms of the
    positions visited before, and `FinderExactly` that the block it produces is
    the one such a walk spells out, from any table the walk begins with.
 */
module Lz4Finder {
  import opened Prelude
  import opened Lz4Format
  import opened Lz4Codec
  import Seqs

  /** A position the finder looked at, and the sequence it emitted there, if any. */
  datatype Visit = Visit(pos: nat, found: Option<Sequence>)

  /** Where the finder goes on after its visits. */
  function EndOf(trail: seq<Visit>): nat {
    if trail == [] then 0 else
    var v := trail[|trail| - 1];
    v.pos + if v.found.Some? then v.found.value.matchLen else 1
  }

  /** Where the literals begin that are not yet emitted. */
  function AnchorOf(trail: seq<Visit>): nat {
    if trail == [] then 0
    else if trail[|trail| - 1].found.Some? then EndOf(trail)
    else AnchorOf(trail[..|trail| - 1])
  }

  /** The sequences emitted, in order. */
  function Emissions(trail: seq<Visit>): seq<Sequence> {
    if trail == [] then [] else
    var v := trail[|trail| - 1];
    Emissions(trail[..|trail| - 1]) + if v.found.Some? then [v.found.value] else []
  }

  /** The hash of the four bytes at `p`, and zero where there are fewer. */
  function Hash(x: seq<byte>, p: nat): nat {
    if p + 4 > |x| then 0 else
    var a: int, b: int, c: int, d: int := x[p], x[p + 1], x[p + 2], x[p + 3];
    (a + 256 * b + 65536 * c + 16777216 * d) * 2654435761 % 0x1_0000_0000 / 0x10_0000
  }

  /** Visit `j` is the latest one whose position has hash `s`. */
  ghost predicate Latest(x: seq<byte>, trail: seq<Visit>, j: nat, s: nat) {
    && j < |trail| && Hash(x, trail[j].pos) == s
    && forall i :: j < i < |trail| ==> Hash(x, trail[i].pos) != s
  }

  /** No visit had hash `s`. */
  ghost predicate Unvisited(x: seq<byte>, trail: seq<Visit>, s: nat) {
    forall i :: 0 <= i < |trail| ==> Hash(x, trail[i].pos) != s
  }

  /** What is known for hash `s`: position `g`, visited last, or else found in the table the walk began with. */
  ghost predicate Known(x: seq<byte>, table: Table, trail: seq<Visit>, s: nat, g: nat)
    requires s < 4096
  {
    || (g < 0x1_0000_0000 && exists j: nat :: Latest(x, trail, j, s) && trail[j].pos == g)
    || (table[s] == g && Unvisited(x, trail, s))
  }

  /** A position known for the hash at `p`, not the very first, within reach, with the same four bytes. */
  ghost predicate Usable(x: seq<byte>, table: Table, trail: seq<Visit>, g: nat, p: nat)
    requires p + 5 < |x|
  {
    && 0 < g < p && p - g < 65535
    && x[g] == x[p] && x[g + 1] == x[p + 1] && x[g + 2] == x[p + 2] && x[g + 3] == x[p + 3]
    && Hash(x, p) < 4096 && Known(x, table, trail, Hash(x, p), g)
  }

  /** The bytes at `g` and `p` agree for `m` bytes and no further. */
  predicate Longest(x: seq<byte>, g: nat, p: nat, m: nat) {
    && g < p && p + m <= |x| && x[g..g + m] == x[p..p + m]
    && (p + m < |x| ==> x[g + m] != x[p + m])
  }

  /** What is emitted at `p` after the visits of `trail`: nothing if no position
      is usable, and else the pending literals and the longest copy from one. */
  ghost predicate Rightly(x: seq<byte>, table: Table, trail: seq<Visit>, p: nat, found: Option<Sequence>)
    requires AnchorOf(trail) <= p && p + 5 < |x|
  {
    match found
    case None => forall g :: !Usable(x, table, trail, g, p)
    case Some(q) =>
      && 1 <= q.offset <= p && Usable(x, table, trail, p - q.offset, p)
      && q.literals == x[AnchorOf(trail)..p]
      && q.matchLen >= 4 && Longest(x, p - q.offset, p, q.matchLen)
  }

  /** Visits that follow on from each other, each with the right emission. */
  ghost predicate Walk(x: seq<byte>, table: Table, trail: seq<Visit>) {
    trail != [] ==>
      var past, v := trail[..|trail| - 1], trail[|trail| - 1];
      && Walk(x, table, past)
      && AnchorOf(past) <= EndOf(past) == v.pos && v.pos + 5 < |x|
      && Rightly(x, table, past, v.pos, v.found)
  }

  // ------------------------------------------------------- the table as memory

  lemma TopTwelveBits(product: nat)
    ensures product % 0x1_0000_0000 / 0x10_0000 < 4096
    ensures product % 0x1_0000_0000 / 0x10_0000 % 4096 == product % 0x1_0000_0000 / 0x10_0000
  {
  }

  lemma HashIsSlot(x: seq<byte>, p: nat)
    requires p <= |x|
    ensures Hash(x, p) == Slot(x, p) < 4096
  {
    if p + 4 <= |x| {
      TopTwelveBits(Word(x[p], x[p + 1], x[p + 2], x[p + 3]) * 2654435761);
    }
  }

  /** The table entry after the visits of `trail`. */
  function Entry(x: seq<byte>, table: Table, trail: seq<Visit>, s: nat): nat
    requires s < 4096
  {
    if trail == [] then table[s] else
    var v := trail[|trail| - 1];
    if Hash(x, v.pos) == s then v.pos % 0x1_0000_0000 else Entry(x, table, trail[..|trail| - 1], s)
  }

  lemma LatestOfFront(x: seq<byte>, trail: seq<Visit>, front: seq<Visit>, last: Visit, j: nat, s: nat)
    requires trail == front + [last] && Hash(x, last.pos) != s
    ensures Latest(x, trail, j, s) <==> Latest(x, front, j, s)
    ensures Latest(x, front, j, s) ==> trail[j] == front[j]
  {
    assert forall i :: 0 <= i < |front| ==> trail[i] == front[i];
  }

  lemma UnvisitedOfFront(x: seq<byte>, trail: seq<Visit>, front: seq<Visit>, last: Visit, s: nat)
    requires trail == front + [last]
    ensures Unvisited(x, trail, s) <==> Unvisited(x, front, s) && Hash(x, last.pos) != s
  {
    assert forall i :: 0 <= i < |front| ==> trail[i] == front[i];
    assert trail[|front|] == last;
  }

  lemma KnownOfFront(x: seq<byte>, table: Table, trail: seq<Visit>, front: seq<Visit>, last: Visit, s: nat, g: nat)
    requires trail == front + [last] && s < 4096 && Hash(x, last.pos) != s
    ensures Known(x, table, trail, s, g) <==> Known(x, table, front, s, g)
  {
    UnvisitedOfFront(x, trail, front, last, s);
    forall j: nat
      ensures Latest(x, trail, j, s) <==> Latest(x, front, j, s)
      ensures Latest(x, front, j, s) ==> trail[j] == front[j]
    {
      LatestOfFront(x, trail, front, last, j, s);
    }
  }

  /** What the last visit makes known. */
  lemma KnownLast(x: seq<byte>, table: Table, trail: seq<Visit>, front: seq<Visit>, last: Visit, s: nat, g: nat)
    requires trail == front + [last] && s < 4096 && Hash(x, last.pos) == s
    ensures Known(x, table, trail, s, g) <==> g < 0x1_0000_0000 && g == last.pos
  {
    UnvisitedOfFront(x, trail, front, last, s);
    assert trail[|front|] == last;
    assert Latest(x, trail, |front|, s);
  }

  /** A position within reach is in the table exactly if it is known; no truncated one is within reach. */
  lemma {:induction false} EntryKnown(x: seq<byte>, table: Table, trail: seq<Visit>, s: nat, g: nat, p: nat)
    requires s < 4096 && g < p < g + 65535 && forall i :: 0 <= i < |trail| ==> trail[i].pos < p
    ensures Entry(x, table, trail, s) == g <==> Known(x, table, trail, s, g)
    decreases |trail|
  {
    if trail == [] {
      assert Known(x, table, trail, s, g) <==> table[s] == g;
    } else {
      var front, last := trail[..|trail| - 1], trail[|trail| - 1];
      Seqs.Unsnoc(trail, front, last);
      if Hash(x, last.pos) == s {
        KnownLast(x, table, trail, front, last, s, g);
      } else {
        EntryKnown(x, table, front, s, g, p);
        KnownOfFront(x, table, trail, front, last, s, g);
      }
    }
  }

  lemma {:induction false} EarlierVisits(x: seq<byte>, table: Table, trail: seq<Visit>)
    requires Walk(x, table, trail)
    ensures forall i :: 0 <= i < |trail| ==> trail[i].pos < EndOf(trail)
  {
    if trail == [] {
    } else {
      EarlierVisits(x, table, trail[..|trail| - 1]);
    }
  }

  ghost predicate Tracks(x: seq<byte>, table: Table, trail: seq<Visit>, now: Table) {
    forall s: nat :: s < 4096 ==> now[s] == Entry(x, table, trail, s)
  }

  lemma TracksNext(x: seq<byte>, table: Table, trail: seq<Visit>, now: Table, v: Visit, more: seq<Visit>)
    requires Tracks(x, table, trail, now) && v.pos <= |x| && more == trail + [v]
    ensures Tracks(x, table, more, now[Slot(x, v.pos) := Stamp(v.pos)])
  {
    Seqs.Split(trail, [v]);
    assert more[|more| - 1] == v && more[..|more| - 1] == trail;
    HashIsSlot(x, v.pos);
  }

  /** What the table entry holds is a candidate exactly if it is usable, and nothing else is usable. */
  lemma CandidateUsable(x: seq<byte>, table: Table, trail: seq<Visit>, now: Table, p: nat, g: nat)
    requires Walk(x, table, trail) && Tracks(x, table, trail, now) && p == EndOf(trail) && p + 5 < |x|
    ensures Usable(x, table, trail, g, p) <==> g == now[Slot(x, p)] && IsCandidate(x, g, p)
  {
    var s := Slot(x, p);
    HashIsSlot(x, p);
    if 0 < g < p && p - g < 65535 {
      EarlierVisits(x, table, trail);
      EntryKnown(x, table, trail, s, g, p);
      FourAgree(x, g, p);
    }
  }

  lemma LongestIs(x: seq<byte>, g: nat, p: nat)
    requires Agrees(x, g, p, MIN_MATCH)
    ensures Longest(x, g, p, MatchLength(x, g, p, MIN_MATCH))
  {
    var m := MatchLength(x, g, p, MIN_MATCH);
    if p + m < |x| {
      AgreesMore(x, g, p, m);
    }
  }

  /** One iteration makes the next visit as it should. */
  lemma AdvanceRightly(x: seq<byte>, table: Table, trail: seq<Visit>, now: Table, p: nat, anchor: nat)
    requires Walk(x, table, trail) && Tracks(x, table, trail, now)
    requires p == EndOf(trail) && anchor == AnchorOf(trail) && anchor <= p && p + 5 < |x|
    ensures Rightly(x, table, trail, p, Advance(x, p, anchor, now).found)
  {
    var g := now[Slot(x, p)];
    forall g: nat
      ensures Usable(x, table, trail, g, p) <==> g == now[Slot(x, p)] && IsCandidate(x, g, p)
    {
      CandidateUsable(x, table, trail, now, p, g);
    }
    if IsCandidate(x, g, p) {
      LongestIs(x, g, p);
    }
  }

  lemma WalkOn(x: seq<byte>, table: Table, trail: seq<Visit>, v: Visit, more: seq<Visit>)
    requires Walk(x, table, trail) && AnchorOf(trail) <= EndOf(trail) == v.pos && v.pos + 5 < |x|
    requires Rightly(x, table, trail, v.pos, v.found) && more == trail + [v]
    ensures Walk(x, table, more)
    ensures EndOf(more) == v.pos + if v.found.Some? then v.found.value.matchLen else 1
    ensures AnchorOf(more) == if v.found.Some? then EndOf(more) else AnchorOf(trail)
    ensures Emissions(more) == Emissions(trail) + if v.found.Some? then [v.found.value] else []
  {
    assert more[|more| - 1] == v && more[..|more| - 1] == trail;
  }

  /** What a walk to the end of the input spells out. */
  ghost predicate Yields(x: seq<byte>, trail: seq<Visit>, before: seq<Sequence>, b: Block) {
    && AnchorOf(trail) <= EndOf(trail) <= |x| <= EndOf(trail) + 5
    && Emissions(trail) == before + b.matches
    && b.tail == if AnchorOf(trail) < |x| then Some(x[AnchorOf(trail)..]) else None
  }

  lemma YieldsMore(x: seq<byte>, trail: seq<Visit>, before: seq<Sequence>,
                   found: Option<Sequence>, rest: Block, b: Block)
    requires Yields(x, trail, before + if found.Some? then [found.value] else [], rest)
    requires b == if found.Some? then Block([found.value] + rest.matches, rest.tail) else rest
    ensures Yields(x, trail, before, b)
  {
    if found.Some? {
      Seqs.Assoc(before, [found.value], rest.matches);
    } else {
      assert before + [] == before;
    }
  }

  lemma BlockAtEnd(x: seq<byte>, table: Table, trail: seq<Visit>, p: nat, anchor: nat, b: Block)
    requires p == EndOf(trail) && anchor == AnchorOf(trail) && anchor <= p <= |x| <= p + 5
    requires b == GreedyBlock(x, p, anchor, table)
    ensures Yields(x, trail, Emissions(trail), b)
  {
    assert Emissions(trail) + [] == Emissions(trail);
  }

  /** One iteration is one visit. */
  lemma OneVisit(x: seq<byte>, table: Table, trail: seq<Visit>, now: Table, p: nat, anchor: nat, b: Block)
    returns (v: Visit, more: seq<Visit>, now': Table, p': nat, anchor': nat, rest: Block)
    requires Walk(x, table, trail) && Tracks(x, table, trail, now)
    requires p == EndOf(trail) && anchor == AnchorOf(trail) && anchor <= p && p + 5 < |x|
    requires b == GreedyBlock(x, p, anchor, now)
    ensures Walk(x, table, more) && Tracks(x, table, more, now')
    ensures p' == EndOf(more) && anchor' == AnchorOf(more) && anchor' <= p' <= |x| && p < p'
    ensures rest == GreedyBlock(x, p', anchor', now')
    ensures Emissions(more) == Emissions(trail) + if v.found.Some? then [v.found.value] else []
    ensures b == if v.found.Some? then Block([v.found.value] + rest.matches, rest.tail) else rest
  {
    var s := Advance(x, p, anchor, now);
    v, now', p', anchor' := Visit(p, s.found), s.table, s.ip, s.anchor;
    more := trail + [v];
    rest := GreedyBlock(x, p', anchor', now');
    AdvanceRightly(x, table, trail, now, p, anchor);
    WalkOn(x, table, trail, v, more);
    TracksNext(x, table, trail, now, v, more);
    GreedyUnfolds(x, p, anchor, now);
  }

  /** The finder walks on to the end of the input. */
  lemma {:induction false} FinderWalks(x: seq<byte>, table: Table, trail: seq<Visit>, now: Table,
                                       p: nat, anchor: nat, b: Block) returns (all: seq<Visit>)
    requires Walk(x, table, trail) && Tracks(x, table, trail, now)
    requires p == EndOf(trail) && anchor == AnchorOf(trail) && anchor <= p <= |x|
    requires b == GreedyBlock(x, p, anchor, now)
    ensures Walk(x, table, all) && Yields(x, all, Emissions(trail), b)
    decreases |x| - p
  {
    if p + 5 >= |x| {
      all := trail;
      BlockAtEnd(x, now, trail, p, anchor, b);
    } else {
      var v, more, now', p', anchor', rest := OneVisit(x, table, trail, now, p, anchor, b);
      all := FinderWalks(x, table, more, now', p', anchor', rest);
      YieldsMore(x, all, Emissions(trail), v.found, rest, b);
    }
  }

  /** From any table the block is spelled out by a walk from the beginning of
      the input to its last five bytes, and ends with what is not yet emitted. */
  lemma FinderExactly(x: seq<byte>, table: Table) returns (trail: seq<Visit>)
    ensures Walk(x, table, trail) && Yields(x, trail, [], GreedyBlock(x, 0, 0, table))
  {
    assert Emissions([]) == [];
    trail := FinderWalks(x, table, [], table, 0, 0, GreedyBlock(x, 0, 0, table));
  }

  // ------------------------------------------------------------- what follows

  lemma {:induction false} WalkPrefix(x: seq<byte>, table: Table, trail: seq<Visit>, k: nat)
    requires Walk(x, table, trail) && k < |trail|
    ensures Walk(x, table, trail[..k + 1])
    decreases |trail|
  {
    if k + 1 == |trail| {
      assert trail[..k + 1] == trail;
    } else {
      var front := trail[..|trail| - 1];
      WalkPrefix(x, table, front, k);
      assert front[..k + 1] == trail[..k + 1];
    }
  }

  /** Each visit of a walk is where the ones before it end, with the right emission. */
  lemma VisitRight(x: seq<byte>, table: Table, trail: seq<Visit>, k: nat)
    requires Walk(x, table, trail) && k < |trail|
    ensures
      var past, v := trail[..k], trail[k];
      && AnchorOf(past) <= EndOf(past) == v.pos && v.pos + 5 < |x|
      && Rightly(x, table, past, v.pos, v.found)
  {
    WalkPrefix(x, table, trail, k);
    var upTo := trail[..k + 1];
    assert upTo[..k] == trail[..k] && upTo[k] == trail[k];
  }

  lemma KnownOnce(x: seq<byte>, table: Table, trail: seq<Visit>, s: nat, g: nat, g': nat)
    requires s < 4096 && Known(x, table, trail, s, g) && Known(x, table, trail, s, g')
    ensures g == g'
  {
  }

  /** The same four bytes have the same hash. */
  lemma SameHash(x: seq<byte>, g: nat, p: nat)
    requires g < p && p + 5 < |x|
    requires x[g] == x[p] && x[g + 1] == x[p + 1] && x[g + 2] == x[p + 2] && x[g + 3] == x[p + 3]
    ensures Hash(x, g) == Hash(x, p) < 4096
  {
  }

  lemma KnownFrom(x: seq<byte>, table: Table, trail: seq<Visit>, j: nat, s: nat, g: nat)
    requires s < 4096 && g < 0x1_0000_0000 && Latest(x, trail, j, s) && trail[j].pos == g
    ensures Known(x, table, trail, s, g)
  {
  }

  lemma LatestBefore(x: seq<byte>, trail: seq<Visit>, past: seq<Visit>, j: nat, k: nat, s: nat)
    requires j < k < |trail| && past == trail[..k] && Hash(x, trail[j].pos) == s
    requires forall i :: j < i < k ==> Hash(x, trail[i].pos) != s
    ensures Latest(x, past, j, s) && past[j].pos == trail[j].pos
  {
    assert forall i :: 0 <= i < k ==> past[i] == trail[i];
  }

  /** If something is known and usable, it is what the copy is from. */
  lemma CopiesFromKnown(x: seq<byte>, table: Table, past: seq<Visit>, p: nat, found: Option<Sequence>, s: nat, g: nat)
    requires AnchorOf(past) <= p && p + 5 < |x| && Rightly(x, table, past, p, found)
    requires s == Hash(x, p) < 4096 && Known(x, table, past, s, g) && Usable(x, table, past, g, p)
    ensures found.Some? && found.value.offset == p - g && Longest(x, g, p, found.value.matchLen)
  {
    if found.Some? {
      var g' := p - found.value.offset;
      KnownOnce(x, table, past, s, g, g');
    }
  }

  /** A repetition is found when the finder gets to it: if it visited `g`, gets
      to `p` less than 65535 bytes further on where the same four bytes stand, and
      no visit in between had their hash, then it emits a copy from `g` at `p`. */
  lemma RepetitionFound(x: seq<byte>, table: Table, trail: seq<Visit>, j: nat, k: nat, g: nat, p: nat)
    requires Walk(x, table, trail) && j < k < |trail| && trail[j].pos == g && trail[k].pos == p
    requires 0 < g < 0x1_0000_0000 && g < p < g + 65535 && p + 5 < |x|
    requires x[g] == x[p] && x[g + 1] == x[p + 1] && x[g + 2] == x[p + 2] && x[g + 3] == x[p + 3]
    requires forall i :: j < i < k ==> Hash(x, trail[i].pos) != Hash(x, p)
    ensures trail[k].found.Some? && trail[k].found.value.offset == p - g
    ensures Longest(x, g, p, trail[k].found.value.matchLen)
  {
    var past, s := trail[..k], Hash(x, p);
    VisitRight(x, table, trail, k);
    SameHash(x, g, p);
    LatestBefore(x, trail, past, j, k, s);
    KnownFrom(x, table, past, j, s, g);
    CopiesFromKnown(x, table, past, p, trail[k].found, s, g);
  }

  lemma {:induction false} EmissionsInReach(x: seq<byte>, table: Table, trail: seq<Visit>)
    requires Walk(x, table, trail)
    ensures forall q :: q in Emissions(trail) ==> 1 <= q.offset < 65535 && q.matchLen >= 4
  {
    if trail == [] {
    } else {
      EmissionsInReach(x, table, trail[..|trail| - 1]);
    }
  }

  /** No copy reaches back 65535 bytes or more, from whatever table. */
  lemma OffsetsInReach(x: seq<byte>, table: Table)
    ensures forall q :: q in GreedyBlock(x, 0, 0, table).matches ==> 1 <= q.offset < 65535 && q.matchLen >= 4
  {
    var trail := FinderExactly(x, table);
    EmissionsInReach(x, table, trail);
    assert [] + GreedyBlock(x, 0, 0, table).matches == GreedyBlock(x, 0, 0, table).matches;
  }

  /** What the compressor returns: the printed block of a walk that begins with
      an empty table, if that is shorter than an input of at least sixteen bytes. */
  lemma CompressedExactly(x: seq<byte>) returns (trail: seq<Visit>, b: Block)
    ensures Walk(x, Filled(0, 4096), trail) && Yields(x, trail, [], b) && AllEncodable(b.matches)
    ensures Compressed(x) == if |x| >= 16 && |Print(b)| < |x| then Print(b) else x
  {
    b := GreedyBlock(x, 0, 0, EMPTY_TABLE);
    trail := FinderExactly(x, EMPTY_TABLE);
  }
}
