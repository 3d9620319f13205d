/** The relationship facts of the family example and the specification of the
    "find all children of" query over them. Everything here is a value; the
    store that owns a sequence of facts is the class in module LowLevel. */
module Family {

  /** The three kinds of relationship a fact can record. */
  datatype Relationship = Parent | Child | Sibling

  /** A person is an object: two people may share a name and still be distinct.
      The name is fixed when the person is created. */
  class Person {
    const name: string

    constructor (name: string)
      ensures this.name == name
    {
      this.name := name;
    }
  }

  /** A stored fact (subject, kind, object): `(a, Parent, b)` reads "a is a parent of b". */
  type Fact = (Person, Relationship, Person)

  /** The filter of the query: the subject carries the name and the kind is Parent. */
  predicate Matches(f: Fact, name: string) {
    f.0.name == name && f.1 == Parent
  }

  /** The two facts that record "parent has child", in the order the store appends them. */
  function PairFacts(parent: Person, child: Person): seq<Fact> {
    [(parent, Parent, child), (child, Child, parent)]
  }

  // ---------------------------------------------------------------------------
  // The query
  // ---------------------------------------------------------------------------

  /** The objects of the matching facts, in the order of the facts: at most one per fact. */
  function ChildrenOf(facts: seq<Fact>, name: string): (r: seq<Person>)
    ensures |r| <= |facts|
  {
    if facts == [] then []
    else (if Matches(facts[0], name) then [facts[0].2] else []) + ChildrenOf(facts[1..], name)
  }

  /** The positions of the matching facts: strictly increasing, each one a match,
      and every match among them. These three properties determine the sequence. */
  function MatchingIndices(facts: seq<Fact>, name: string): (idx: seq<nat>)
    ensures forall j :: 0 <= j < |idx| ==> idx[j] < |facts| && Matches(facts[idx[j]], name)
    ensures forall j, k :: 0 <= j < k < |idx| ==> idx[j] < idx[k]
    ensures forall i :: 0 <= i < |facts| && Matches(facts[i], name) ==> i in idx
  {
    if facts == [] then []
    else
      var n := |facts| - 1;
      assert forall i :: 0 <= i < n ==> facts[..n][i] == facts[i];
      MatchingIndices(facts[..n], name) + (if Matches(facts[n], name) then [n] else [])
  }

  /** The query distributes over concatenation of fact sequences. */
  lemma {:induction false} ChildrenOfAppend(a: seq<Fact>, b: seq<Fact>, name: string)
    ensures ChildrenOf(a + b, name) == ChildrenOf(a, name) + ChildrenOf(b, name)
  {
    if a == [] {
      assert a + b == b;
    } else {
      assert (a + b)[1..] == a[1..] + b;
      ChildrenOfAppend(a[1..], b, name);
    }
  }

  /** The query yields exactly the objects of the matching facts, in fact order:
      its j-th element is the object of the fact at the j-th matching position. */
  lemma {:induction false} ChildrenOfIsProjection(facts: seq<Fact>, name: string)
    ensures |ChildrenOf(facts, name)| == |MatchingIndices(facts, name)|
    ensures forall j :: 0 <= j < |ChildrenOf(facts, name)| ==>
              ChildrenOf(facts, name)[j] == facts[MatchingIndices(facts, name)[j]].2
  {
    if facts != [] {
      var n := |facts| - 1;
      assert facts == facts[..n] + [facts[n]];
      ChildrenOfIsProjection(facts[..n], name);
      ChildrenOfAppend(facts[..n], [facts[n]], name);
      assert forall i :: 0 <= i < n ==> facts[..n][i] == facts[i];
    }
  }

  /** The query is empty exactly when no fact matches: an unknown name is not an error. */
  lemma {:induction false} EmptyIffNoMatch(facts: seq<Fact>, name: string)
    ensures ChildrenOf(facts, name) == [] <==>
            forall i :: 0 <= i < |facts| ==> !Matches(facts[i], name)
  {
    ChildrenOfIsProjection(facts, name);
    var idx := MatchingIndices(facts, name);
    if ChildrenOf(facts, name) != [] {
      assert Matches(facts[idx[0]], name);
    }
  }

  /** Every child the query yields is the object of some stored fact that matches. */
  lemma ChildIsStoredObject(facts: seq<Fact>, name: string, c: Person)
    requires c in ChildrenOf(facts, name)
    ensures exists i :: 0 <= i < |facts| && Matches(facts[i], name) && facts[i].2 == c
  {
    ChildrenOfIsProjection(facts, name);
    var j :| 0 <= j < |ChildrenOf(facts, name)| && ChildrenOf(facts, name)[j] == c;
    var i := MatchingIndices(facts, name)[j];
    assert facts[i].2 == c;
  }

  /** The object of every stored Parent fact is among the children of its subject's name. */
  lemma StoredChildIsFound(facts: seq<Fact>, i: nat)
    requires i < |facts| && facts[i].1 == Parent
    ensures facts[i].2 in ChildrenOf(facts, facts[i].0.name)
  {
    var name := facts[i].0.name;
    ChildrenOfIsProjection(facts, name);
    var idx := MatchingIndices(facts, name);
    var r := ChildrenOf(facts, name);
    assert Matches(facts[i], name);
    assert i in idx;
    var j :| 0 <= j < |idx| && idx[j] == i;
    assert r[j] == facts[i].2;
  }

  // ---------------------------------------------------------------------------
  // The pairing invariant
  // ---------------------------------------------------------------------------

  /** The facts at positions 2k and 2k+1 are (a, Parent, b) followed by (b, Child, a). */
  predicate PairAt(facts: seq<Fact>, k: nat) {
    2 * k + 1 < |facts| &&
    facts[2 * k].1 == Parent &&
    facts[2 * k + 1] == (facts[2 * k].2, Child, facts[2 * k].0)
  }

  /** The facts come in pairs: even length, and each even position starts a pair. */
  predicate Paired(facts: seq<Fact>) {
    |facts| % 2 == 0 && forall k :: 0 <= k < |facts| / 2 ==> PairAt(facts, k)
  }

  /** The facts recorded by a sequence of (parent, child) additions, in order. */
  function Expand(pairs: seq<(Person, Person)>): (facts: seq<Fact>)
    ensures |facts| == 2 * |pairs|
    ensures forall k :: 0 <= k < |pairs| ==>
              facts[2 * k] == (pairs[k].0, Parent, pairs[k].1) &&
              facts[2 * k + 1] == (pairs[k].1, Child, pairs[k].0)
  {
    if pairs == [] then []
    else
      var n := |pairs| - 1;
      Expand(pairs[..n]) + PairFacts(pairs[n].0, pairs[n].1)
  }

  /** The (parent, child) additions that a fact sequence records, reading each even
      position as the Parent fact of a pair; meaningful when the facts are Paired. */
  function Pairs(facts: seq<Fact>): (pairs: seq<(Person, Person)>)
  {
    seq(|facts| / 2, k requires 0 <= k < |facts| / 2 => (facts[2 * k].0, facts[2 * k].2))
  }

  /** Every sequence of additions yields paired facts, and the additions can be read back. */
  lemma ExpandIsPaired(pairs: seq<(Person, Person)>)
    ensures Paired(Expand(pairs))
    ensures Pairs(Expand(pairs)) == pairs
  {
    var facts := Expand(pairs);
    assert |facts| / 2 == |pairs|;
    forall k | 0 <= k < |facts| / 2 ensures PairAt(facts, k) {
    }
  }

  /** Every paired fact sequence is the expansion of the additions it records. */
  lemma PairedIsExpansion(facts: seq<Fact>)
    requires Paired(facts)
    ensures Expand(Pairs(facts)) == facts
  {
    var ps := Pairs(facts);
    var e := Expand(ps);
    forall i | 0 <= i < |facts| ensures e[i] == facts[i] {
      var k := i / 2;
      assert PairAt(facts, k);
      assert ps[k] == (facts[2 * k].0, facts[2 * k].2);
      if i == 2 * k {
        assert e[2 * k] == (ps[k].0, Parent, ps[k].1);
      } else {
        assert i == 2 * k + 1;
        assert e[2 * k + 1] == (ps[k].1, Child, ps[k].0);
      }
    }
  }

  /** Appending one parent/child pair keeps the facts paired. */
  lemma PairedAppend(facts: seq<Fact>, parent: Person, child: Person)
    requires Paired(facts)
    ensures Paired(facts + PairFacts(parent, child))
  {
    var g := facts + PairFacts(parent, child);
    forall k | 0 <= k < |g| / 2 ensures PairAt(g, k) {
      if k < |facts| / 2 {
        assert PairAt(facts, k);
        assert g[2 * k] == facts[2 * k] && g[2 * k + 1] == facts[2 * k + 1];
      } else {
        assert 2 * k == |facts|;
      }
    }
  }

  /** The store never records a Sibling fact: each position holds a Parent or a Child fact. */
  lemma PairedHasNoSibling(facts: seq<Fact>, i: nat)
    requires Paired(facts) && i < |facts|
    ensures facts[i].1 == Parent <==> i % 2 == 0
    ensures facts[i].1 == Child <==> i % 2 == 1
    ensures facts[i].1 != Sibling
  {
    var k := i / 2;
    assert PairAt(facts, k);
    assert i == 2 * k || i == 2 * k + 1;
  }

  /** Each child the query yields is backed by a whole pair: (p, Parent, c) at an even
      position where p has the name, followed by the symmetric (c, Child, p). */
  lemma ChildHasPairedFacts(facts: seq<Fact>, name: string, j: nat)
    requires Paired(facts) && j < |ChildrenOf(facts, name)|
    ensures exists k :: 0 <= k < |facts| / 2 && PairAt(facts, k) &&
              facts[2 * k].0.name == name && facts[2 * k].2 == ChildrenOf(facts, name)[j] &&
              facts[2 * k + 1] == (ChildrenOf(facts, name)[j], Child, facts[2 * k].0)
  {
    ChildrenOfIsProjection(facts, name);
    var i := MatchingIndices(facts, name)[j];
    PairedHasNoSibling(facts, i);
    var k := i / 2;
    assert i == 2 * k;
    assert PairAt(facts, k);
  }

  /** The subject of every stored Child fact is among the children of its parent's name. */
  lemma ChildFactIsFound(facts: seq<Fact>, i: nat)
    requires Paired(facts) && i < |facts| && facts[i].1 == Child
    ensures facts[i].0 in ChildrenOf(facts, facts[i].2.name)
  {
    PairedHasNoSibling(facts, i);
    var k := i / 2;
    assert i == 2 * k + 1;
    assert PairAt(facts, k);
    StoredChildIsFound(facts, 2 * k);
  }

  // ---------------------------------------------------------------------------
  // The query after an addition
  // ---------------------------------------------------------------------------

  /** After adding (parent, child) the query for the parent's name gains the child at
      the end, and the query for every other name is unchanged: the Child fact of the
      pair never matches. */
  lemma AddExtendsQuery(facts: seq<Fact>, parent: Person, child: Person, name: string)
    ensures ChildrenOf(facts + PairFacts(parent, child), name) ==
            ChildrenOf(facts, name) + (if parent.name == name then [child] else [])
  {
    ChildrenOfAppend(facts, PairFacts(parent, child), name);
    var pf := PairFacts(parent, child);
    var none: seq<Fact> := [];
    assert pf[1..] == [pf[1]] && pf[1..][1..] == none;
  }

  /** No deduplication: adding the same pair twice makes the child appear twice. */
  lemma AddTwiceRepeatsChild(facts: seq<Fact>, parent: Person, child: Person)
    ensures ChildrenOf(facts + PairFacts(parent, child) + PairFacts(parent, child), parent.name) ==
            ChildrenOf(facts, parent.name) + [child, child]
  {
    AddExtendsQuery(facts, parent, child, parent.name);
    AddExtendsQuery(facts + PairFacts(parent, child), parent, child, parent.name);
  }
}
