/**
  Siblings (data/sibling.go) and the order that merging follows: a sibling loses against a
  causally later one, and against the greater one under `Compare` when the clocks are equal.
 */
module Siblings {
  import opened Wrappers
  import opened Clocks

  newtype byte = x: int | 0 <= x < 256

  /** A missing value is a tombstone; an empty value is not. */
  datatype Sibling = Sibling(clock: DVV, value: Option<seq<byte>>, timestamp: nat) {
    predicate IsTombstone() { value.None? }

    /** Breaks a tie between siblings of equal clock; a value is preferred to a tombstone. */
    function Compare(other: Sibling): int {
      if IsTombstone() && !other.IsTombstone() then -1
      else if !IsTombstone() && other.IsTombstone() then 1
      else if IsTombstone() && other.IsTombstone() then
        if timestamp < other.timestamp then -1 else if timestamp > other.timestamp then 1 else 0
      else CompareBytes(value.value, other.value.value)
    }
  }

  function CompareBytes(a: seq<byte>, b: seq<byte>): int {
    if a == [] && b == [] then 0
    else if a == [] then -1
    else if b == [] then 1
    else if a[0] < b[0] then -1
    else if a[0] > b[0] then 1
    else CompareBytes(a[1..], b[1..])
  }

  lemma {:induction false} CompareBytesIsAntisymmetric(a: seq<byte>, b: seq<byte>)
    ensures CompareBytes(a, b) == -CompareBytes(b, a)
    ensures CompareBytes(a, b) == 0 <==> a == b
  {
    if a != [] && b != [] {
      CompareBytesIsAntisymmetric(a[1..], b[1..]);
      assert a == [a[0]] + a[1..] && b == [b[0]] + b[1..];
    }
  }

  lemma {:induction false} CompareBytesIsTransitive(a: seq<byte>, b: seq<byte>, c: seq<byte>)
    requires CompareBytes(a, b) < 0 && CompareBytes(b, c) < 0
    ensures CompareBytes(a, c) < 0
  {
    if a != [] && b != [] && c != [] && a[0] == b[0] == c[0] {
      CompareBytesIsTransitive(a[1..], b[1..], c[1..]);
    }
  }

  /** `Compare` is a strict order whose ties are the siblings that agree on what it looks at. */
  lemma CompareIsAnOrder(a: Sibling, b: Sibling, c: Sibling)
    ensures a.Compare(b) == -b.Compare(a)
    ensures a.Compare(b) < 0 && b.Compare(c) < 0 ==> a.Compare(c) < 0
    ensures a.Compare(b) == 0 <==>
              a.value == b.value && (a.IsTombstone() ==> a.timestamp == b.timestamp)
  {
    if !a.IsTombstone() && !b.IsTombstone() {
      CompareBytesIsAntisymmetric(a.value.value, b.value.value);
      if !c.IsTombstone() && a.Compare(b) < 0 && b.Compare(c) < 0 {
        CompareBytesIsTransitive(a.value.value, b.value.value, c.value.value);
      }
    }
  }

  // ----- Who survives a tie ----------------------------------------------------------------

  /** The first difference decides; a proper prefix comes first. */
  ghost predicate BytesBefore(a: seq<byte>, b: seq<byte>) {
    exists k :: 0 <= k <= |a| && k <= |b| && DifferAt(a, b, k)
  }

  predicate DifferAt(a: seq<byte>, b: seq<byte>, k: int)
    requires 0 <= k <= |a| && k <= |b|
  {
    a[..k] == b[..k] && k < |b| && (k == |a| || a[k] < b[k])
  }

  lemma {:induction false} CompareBytesMeaning(a: seq<byte>, b: seq<byte>)
    ensures CompareBytes(a, b) < 0 <==> BytesBefore(a, b)
  {
    if a == [] {
      assert b != [] ==> DifferAt(a, b, 0);
    } else if b != [] {
      if a[0] < b[0] { assert DifferAt(a, b, 0); }
      CompareBytesMeaning(a[1..], b[1..]);
      if a[0] == b[0] && BytesBefore(a[1..], b[1..]) {
        var k :| 0 <= k <= |a[1..]| && k <= |b[1..]| && DifferAt(a[1..], b[1..], k);
        assert a[..k + 1] == [a[0]] + a[1..][..k] && b[..k + 1] == [b[0]] + b[1..][..k];
        assert DifferAt(a, b, k + 1);
      }
      if BytesBefore(a, b) && a[0] >= b[0] {
        var k :| 0 <= k <= |a| && k <= |b| && DifferAt(a, b, k);
        assert k > 0 && a[..k][0] == b[..k][0];
        assert a[1..][..k - 1] == a[..k][1..] && b[1..][..k - 1] == b[..k][1..];
        assert DifferAt(a[1..], b[1..], k - 1);
      }
    }
  }

  /** A tombstone gives way to a value, an earlier tombstone to a later one, smaller bytes to greater ones. */
  ghost predicate GivesWay(a: Sibling, b: Sibling) {
    match (a.value, b.value)
    case (None, Some(_)) => true
    case (Some(_), None) => false
    case (None, None) => a.timestamp < b.timestamp
    case (Some(x), Some(y)) => BytesBefore(x, y)
  }

  lemma CompareMeaning(a: Sibling, b: Sibling)
    ensures a.Compare(b) < 0 <==> GivesWay(a, b)
  {
    if a.value.Some? && b.value.Some? { CompareBytesMeaning(a.value.value, b.value.value); }
  }

  /** The dot of `a` is covered by the context of `b`. */
  predicate Covered(a: Sibling, b: Sibling) {
    a.clock.dot.node in b.clock.vv && a.clock.dot.count <= b.clock.vv[a.clock.dot.node]
  }

  /** `b` knows `a`, or is preferred to it under the same clock. */
  ghost predicate Supplants(b: Sibling, a: Sibling) {
    Covered(a, b) || (a.clock == b.clock && GivesWay(a, b))
  }

  lemma BelowMeaning(a: Sibling, b: Sibling)
    ensures Below(a, b) <==> Supplants(b, a)
  {
    CompareMeaning(a, b);
  }

  lemma MaximalMeaning(s: set<Sibling>, a: Sibling)
    ensures a in Maximal(s) <==> a in s && forall b :: b in s ==> !Supplants(b, a)
  {
    forall b { BelowMeaning(a, b); }
  }

  predicate HappenedBefore(a: Sibling, b: Sibling) { a.clock.HappenedBefore(b.clock) }

  /** `a` does not survive next to `b`. */
  predicate Below(a: Sibling, b: Sibling) {
    HappenedBefore(a, b) || (a.clock == b.clock && a.Compare(b) < 0)
  }

  /** Happened-before is a strict partial order on `u`. */
  ghost predicate CausalOrder(u: set<Sibling>) {
    && (forall a :: a in u ==> !HappenedBefore(a, a))
    && (forall a, b, c :: a in u && b in u && c in u && HappenedBefore(a, b) && HappenedBefore(b, c)
          ==> HappenedBefore(a, c))
  }

  /** `Compare` tells any two different siblings of equal clock apart. */
  ghost predicate TiesAreEqual(u: set<Sibling>) {
    forall a, b :: a in u && b in u && a.clock == b.clock && a.Compare(b) == 0 ==> a == b
  }

  ghost predicate Universe(u: set<Sibling>) { CausalOrder(u) && TiesAreEqual(u) }

  /** No sibling of the set loses against another one of it. */
  ghost predicate Antichain(s: set<Sibling>) {
    forall a, b :: a in s && b in s ==> !Below(a, b)
  }

  ghost function Maximal(s: set<Sibling>): set<Sibling> {
    set a | a in s && (forall b :: b in s ==> !Below(a, b))
  }

  lemma BelowIsTransitive(u: set<Sibling>, a: Sibling, b: Sibling, c: Sibling)
    requires Universe(u) && a in u && b in u && c in u
    requires Below(a, b) && Below(b, c)
    ensures Below(a, c)
  {
    CompareIsAnOrder(a, b, c);
  }

  lemma BelowIsIrreflexive(u: set<Sibling>, a: Sibling)
    requires Universe(u) && a in u
    ensures !Below(a, a)
  {
    CompareIsAnOrder(a, a, a);
  }

  /** Every sibling of a finite set is a maximal one or loses against a maximal one. */
  lemma {:induction false} MaximalCovers(u: set<Sibling>, s: set<Sibling>, a: Sibling) returns (top: Sibling)
    requires Universe(u) && s <= u && a in s
    ensures top in Maximal(s) && (top == a || Below(a, top))
    decreases |set b | b in s && Below(a, b)|
  {
    ghost var above := set b | b in s && Below(a, b);
    if above == {} {
      forall b | b in s ensures !Below(a, b) {
        assert b !in above;
      }
      top := a;
    } else {
      var b :| b in above;
      ghost var aboveB := set c | c in s && Below(b, c);
      forall c | c in aboveB ensures c in above {
        BelowIsTransitive(u, a, b, c);
      }
      BelowIsIrreflexive(u, b);
      assert aboveB < above;
      SmallerSubset(aboveB, above);
      top := MaximalCovers(u, s, b);
      if top != b { BelowIsTransitive(u, a, b, top); }
    }
  }

  lemma SmallerSubset<T>(a: set<T>, b: set<T>)
    requires a < b
    ensures |a| < |b|
  {
    assert |b - a| == |b| - |a|;
  }

  /** Taking the maximal part early does not change the final maximal part. */
  lemma MaximalAbsorbs(u: set<Sibling>, s: set<Sibling>, t: set<Sibling>)
    requires Universe(u) && s <= u && t <= u
    ensures Maximal(Maximal(s) + t) == Maximal(s + t)
  {
    forall a | a in Maximal(Maximal(s) + t) ensures a in Maximal(s + t) {
      forall b | b in s + t ensures !Below(a, b) {
        if b in s && Below(a, b) {
          var top := MaximalCovers(u, s, b);
          assert top in Maximal(s) + t;
          if top != b { BelowIsTransitive(u, a, b, top); }
        }
      }
    }
  }

  lemma AntichainIsItsMaximal(s: set<Sibling>)
    ensures Antichain(s) <==> Maximal(s) == s
    ensures Antichain(Maximal(s))
  {
    if Maximal(s) == s {
      forall a, b | a in s && b in s ensures !Below(a, b) { assert a in Maximal(s); }
    }
  }

  // ----- The three set operations of the merge lattice ------------------------------------

  /** The left operand of a merge also loses when `Compare` finds no difference. */
  predicate LosesLeft(a: Sibling, b: Sibling) {
    HappenedBefore(a, b) || (a.clock == b.clock && a.Compare(b) <= 0)
  }

  ghost predicate StaysLeft(a: Sibling, theirs: set<Sibling>) {
    forall b :: b in theirs ==> !LosesLeft(a, b)
  }

  ghost predicate StaysRight(b: Sibling, mine: set<Sibling>) {
    forall a :: a in mine ==> !Below(b, a)
  }

  /** What `Sync` keeps: each side drops what is overwritten by, or loses a tie against, the other. */
  ghost function Sync(mine: set<Sibling>, theirs: set<Sibling>): set<Sibling> {
    (set a | a in mine && StaysLeft(a, theirs)) + (set b | b in theirs && StaysRight(b, mine))
  }

  /** What `Diff` lists: their siblings that are neither overwritten here nor present by clock. */
  ghost function Diff(mine: set<Sibling>, theirs: set<Sibling>): set<Sibling> {
    set b | b in theirs && Missing(b, mine)
  }

  ghost predicate Missing(b: Sibling, mine: set<Sibling>) {
    forall a :: a in mine ==> !HappenedBefore(b, a) && b.clock != a.clock
  }

  /**
    What a merge keeps: the siblings whose dot the contexts of the other side do not cover; of two
    with one clock the one that does not give way, and the right one when neither does.
   */
  lemma SyncMeaning(mine: set<Sibling>, theirs: set<Sibling>, a: Sibling)
    ensures a in Sync(mine, theirs) <==>
              || (a in mine && forall b :: b in theirs ==> !Covered(a, b) && (a.clock == b.clock ==> GivesWay(b, a)))
              || (a in theirs && forall b :: b in mine ==> !Covered(a, b) && (a.clock == b.clock ==> !GivesWay(a, b)))
  {
    forall b ensures LosesLeft(a, b) <==> Covered(a, b) || (a.clock == b.clock && !GivesWay(b, a)) {
      CompareIsAnOrder(a, b, b);
      CompareMeaning(b, a);
    }
    forall b ensures Below(a, b) <==> Covered(a, b) || (a.clock == b.clock && GivesWay(a, b)) { CompareMeaning(a, b); }
  }

  /** Two siblings with one clock. */
  lemma TieIsBroken(a: Sibling, b: Sibling)
    requires a.clock == b.clock && !Covered(a, a)
    ensures Sync({a}, {b}) == if GivesWay(b, a) then {a} else {b}
  {
    CompareIsAnOrder(a, b, b);
    CompareMeaning(a, b);
    CompareMeaning(b, a);
    forall x ensures x in Sync({a}, {b}) <==> x == if GivesWay(b, a) then a else b { SyncMeaning({a}, {b}, x); }
  }

  /** The siblings of the other set whose dot is covered nowhere here and whose clock is not here. */
  lemma DiffMeaning(mine: set<Sibling>, theirs: set<Sibling>, b: Sibling)
    ensures b in Diff(mine, theirs) <==> b in theirs && forall a :: a in mine ==> !Covered(b, a) && b.clock != a.clock
  {
  }

  lemma StaysLeftOfOneMore(a: Sibling, theirs: set<Sibling>, b: Sibling)
    ensures StaysLeft(a, theirs + {b}) <==> StaysLeft(a, theirs) && !LosesLeft(a, b)
  {
    if StaysLeft(a, theirs + {b}) {
      assert b in theirs + {b};
      assert forall c :: c in theirs ==> c in theirs + {b};
    }
  }

  lemma StaysRightOfOneMore(b: Sibling, mine: set<Sibling>, a: Sibling)
    ensures StaysRight(b, mine + {a}) <==> StaysRight(b, mine) && !Below(b, a)
  {
    if StaysRight(b, mine + {a}) {
      assert a in mine + {a};
      assert forall c :: c in mine ==> c in mine + {a};
    }
  }

  lemma MissingFromOneMore(b: Sibling, mine: set<Sibling>, a: Sibling)
    ensures Missing(b, mine + {a}) <==> Missing(b, mine) && !HappenedBefore(b, a) && b.clock != a.clock
  {
    if Missing(b, mine + {a}) {
      assert a in mine + {a};
      assert forall c :: c in mine ==> c in mine + {a};
    }
  }

  lemma EqualSiblingsTie(a: Sibling)
    ensures a.Compare(a) == 0 && LosesLeft(a, a)
  {
    CompareIsAnOrder(a, a, a);
  }

  /** Merging two antichains gives exactly the maximal siblings of their union. */
  lemma SyncIsMaximal(u: set<Sibling>, mine: set<Sibling>, theirs: set<Sibling>)
    requires Universe(u) && mine <= u && theirs <= u && Antichain(mine) && Antichain(theirs)
    ensures Sync(mine, theirs) == Maximal(mine + theirs)
    ensures Antichain(Sync(mine, theirs))
  {
    forall a | a in Sync(mine, theirs) ensures a in Maximal(mine + theirs) {
      forall b | b in mine + theirs ensures !Below(a, b) { }
    }
    forall a | a in Maximal(mine + theirs) ensures a in Sync(mine, theirs) {
      if a !in theirs {
        forall b | b in theirs && a.clock == b.clock ensures a.Compare(b) > 0 {
          assert !Below(a, b);
        }
      }
    }
    AntichainIsItsMaximal(mine + theirs);
  }

  lemma SyncIsCommutative(u: set<Sibling>, a: set<Sibling>, b: set<Sibling>)
    requires Universe(u) && a <= u && b <= u && Antichain(a) && Antichain(b)
    ensures Sync(a, b) == Sync(b, a)
  {
    SyncIsMaximal(u, a, b);
    SyncIsMaximal(u, b, a);
    assert a + b == b + a;
  }

  lemma SyncIsAssociative(u: set<Sibling>, a: set<Sibling>, b: set<Sibling>, c: set<Sibling>)
    requires Universe(u) && a <= u && b <= u && c <= u && Antichain(a) && Antichain(b) && Antichain(c)
    ensures Sync(Sync(a, b), c) == Sync(a, Sync(b, c)) == Maximal(a + b + c)
  {
    SyncIsMaximal(u, a, b);
    SyncIsMaximal(u, b, c);
    SyncIsMaximal(u, Sync(a, b), c);
    SyncIsMaximal(u, a, Sync(b, c));
    MaximalAbsorbs(u, a + b, c);
    MaximalAbsorbs(u, b + c, a);
    assert Maximal(b + c) + a == a + Maximal(b + c);
    assert (b + c) + a == a + b + c;
  }

  lemma SyncIsIdempotent(u: set<Sibling>, a: set<Sibling>)
    requires Universe(u) && a <= u && Antichain(a)
    ensures Sync(a, a) == a
  {
    SyncIsMaximal(u, a, a);
    AntichainIsItsMaximal(a);
    assert a + a == a;
  }

  /**
    Siblings of equal clock and value but different timestamps tie, and the right operand
    wins.  For antichains under a causal order this is the only way the order of the
    operands can show: merging commutes exactly when both sides hold the same siblings at
    every tied clock.
   */
  lemma SyncCommutesExactly(a: set<Sibling>, b: set<Sibling>)
    requires CausalOrder(a + b) && Antichain(a) && Antichain(b)
    ensures Sync(a, b) == Sync(b, a) <==>
              (forall x, y :: x in a && y in b && x.clock == y.clock && x.Compare(y) == 0 ==> x in b && y in a)
  {
    if x, y :| x in a && y in b && x.clock == y.clock && x.Compare(y) == 0 && !(x in b && y in a) {
      CompareIsAnOrder(x, y, y);
      TieShows(a, b, x, y);
      TieShows(b, a, y, x);
    } else {
      forall x, y | x in a && y in b ensures x.Compare(y) == -y.Compare(x) { CompareIsAnOrder(x, y, y); }
      forall x ensures x in Sync(a, b) <==> x in Sync(b, a) { }
    }
  }

  lemma TieShows(a: set<Sibling>, b: set<Sibling>, x: Sibling, y: Sibling)
    requires CausalOrder(a + b) && Antichain(a) && Antichain(b)
    requires x in a && y in b && x.clock == y.clock && x.Compare(y) == 0
    ensures y in Sync(a, b)
    ensures y !in a ==> y !in Sync(b, a)
  {
    CompareIsAnOrder(x, y, y);
    forall z | z in a ensures !HappenedBefore(y, z) { assert !Below(x, z); }
    forall z | z in a && z.clock == y.clock ensures y.Compare(z) == 0 {
      assert !Below(x, z) && !Below(z, x);
      CompareIsAnOrder(x, z, y);
      CompareIsAnOrder(z, y, x);
    }
  }

  lemma TimestampTieShows()
    ensures exists a: set<Sibling>, b: set<Sibling> ::
              CausalOrder(a + b) && Antichain(a) && Antichain(b) && Sync(a, b) != Sync(b, a)
  {
    var x := Sibling(DVV(Dot("r", 1), map[]), Some([]), 1);
    var y := x.(timestamp := 2);
    assert x.Compare(y) == 0 && y.Compare(x) == 0;
    assert CausalOrder({x} + {y}) && Antichain({x}) && Antichain({y});
    SyncCommutesExactly({x}, {y});
  }
}
