/** The low-level component: the relationship store, the only owner of the fact
    sequence, and the one operation that adds to it. */
module LowLevel {
  import opened Family

  class Relationships {
    /** The facts, in insertion order. Only AddParentAndChild changes them. */
    var relations: seq<Fact>

    /** The store's invariant: the facts come in (Parent, Child) pairs. */
    ghost predicate Valid()
      reads this
    {
      Paired(relations)
    }

    /** A new store holds no facts. */
    constructor ()
      ensures Valid() && relations == []
    {
      relations := [];
    }

    /** Appends (parent, Parent, child) and then (child, Child, parent); earlier
        facts stay as they were. The query for the parent's name gains the child
        at its end and the query for any other name is unchanged. */
    method AddParentAndChild(parent: Person, child: Person)
      requires Valid()
      modifies this
      ensures Valid()
      ensures relations == old(relations) + [(parent, Parent, child), (child, Child, parent)]
      ensures forall name :: ChildrenOf(relations, name) ==
                ChildrenOf(old(relations), name) + (if parent.name == name then [child] else [])
    {
      PairedAppend(relations, parent, child);
      forall name
        ensures ChildrenOf(relations + PairFacts(parent, child), name) ==
                ChildrenOf(relations, name) + (if parent.name == name then [child] else [])
      {
        AddExtendsQuery(relations, parent, child, name);
      }
      relations := relations + [(parent, Parent, child)];
      relations := relations + [(child, Child, parent)];
      assert relations == old(relations) + PairFacts(parent, child);
    }

    /** Scans the facts in insertion order and collects the object of every fact
        whose subject has the name and whose kind is Parent. Changes nothing. */
    method FindAllChildrenOf(name: string) returns (r: seq<Person>)
      ensures r == ChildrenOf(relations, name)
    {
      r := [];
      var i := 0;
      while i < |relations|
        invariant 0 <= i <= |relations|
        invariant r == ChildrenOf(relations[..i], name)
      {
        var f := relations[i];
        assert relations[..i + 1] == relations[..i] + [f];
        ChildrenOfAppend(relations[..i], [f], name);
        if Matches(f, name) {
          r := r + [f.2];
        }
        i := i + 1;
      }
      assert relations[..i] == relations;
    }
  }
}
