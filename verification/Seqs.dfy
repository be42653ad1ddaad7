/** Laws of concatenation and slicing, stated once so that larger proofs can call them instead of rediscovering them. */
module Seqs {

  lemma Assoc<T>(a: seq<T>, b: seq<T>, c: seq<T>)
    ensures (a + b) + c == a + (b + c)
  {
  }

  lemma DropDrop<T>(s: seq<T>, a: nat, b: nat)
    requires a + b <= |s|
    ensures s[a..][b..] == s[a + b..]
  {
  }

  lemma Split<T>(a: seq<T>, b: seq<T>)
    ensures (a + b)[..|a|] == a && (a + b)[|a|..] == b
  {
  }

  lemma ConsTail<T>(x: T, s: seq<T>)
    ensures ([x] + s)[0] == x && ([x] + s)[1..] == s
  {
  }

  lemma TakeDrop<T>(s: seq<T>, n: nat)
    requires n <= |s|
    ensures s == s[..n] + s[n..]
  {
  }

  lemma TakeMore<T>(s: seq<T>, a: nat, b: nat)
    requires a <= b <= |s|
    ensures s[..a] + s[a..b] == s[..b]
  {
  }

  lemma TakeLast<T>(s: seq<T>, n: nat)
    requires 0 < n <= |s|
    ensures s[..n] == s[..n - 1] + [s[n - 1]]
  {
  }

  /** A nonempty sequence is all but its last element, and that element. */
  lemma Unsnoc<T>(s: seq<T>, front: seq<T>, last: T)
    requires s != [] && front == s[..|s| - 1] && last == s[|s| - 1]
    ensures s == front + [last]
  {
  }

  lemma SplitMultiset<T>(s: seq<T>, n: nat)
    requires n <= |s|
    ensures multiset(s) == multiset(s[..n]) + multiset(s[n..])
  {
    TakeDrop(s, n);
  }

  /** Equal slices are equal without their last elements, and the last elements are equal. */
  lemma EqualSlices<T>(s: seq<T>, a: nat, b: nat, m: nat)
    requires a + m + 1 <= |s| && b + m + 1 <= |s|
    ensures s[a..a + m + 1] == s[b..b + m + 1] <==> s[a..a + m] == s[b..b + m] && s[a + m] == s[b + m]
  {
    assert s[a..a + m + 1] == s[a..a + m] + [s[a + m]];
    assert s[b..b + m + 1] == s[b..b + m] + [s[b + m]];
    if s[a..a + m + 1] == s[b..b + m + 1] {
      assert s[a..a + m] == s[a..a + m + 1][..m];
      assert s[b..b + m] == s[b..b + m + 1][..m];
      assert s[a + m] == s[a..a + m + 1][m];
      assert s[b + m] == s[b..b + m + 1][m];
    }
  }

  /** The same exchange within a larger multiset. */
  lemma ExchangeWithin<T>(a: multiset<T>, b: multiset<T>, rest: multiset<T>, x: multiset<T>, y: multiset<T>)
    requires a + x == b + y
    ensures a + rest + x == b + rest + y
  {
    assert a + rest + x == a + x + rest;
    assert b + rest + y == b + y + rest;
  }

  /** Two exchanges in a row. */
  lemma ExchangeTwice<T>(p0: multiset<T>, p1: multiset<T>, p2: multiset<T>,
                         out1: seq<T>, in1: seq<T>, out2: seq<T>, in2: seq<T>)
    requires p1 + multiset(out1) == p0 + multiset(in1)
    requires p2 + multiset(out2) == p1 + multiset(in2)
    ensures p2 + multiset(out1 + out2) == p0 + multiset(in1 + in2)
  {
    assert multiset(out1 + out2) == multiset(out1) + multiset(out2);
    assert multiset(in1 + in2) == multiset(in1) + multiset(in2);
    calc {
      p2 + (multiset(out1) + multiset(out2));
      (p2 + multiset(out2)) + multiset(out1);
      (p1 + multiset(in2)) + multiset(out1);
      (p1 + multiset(out1)) + multiset(in2);
      (p0 + multiset(in1)) + multiset(in2);
      p0 + (multiset(in1) + multiset(in2));
    }
  }
}
