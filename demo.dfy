/** The demonstration scenario: John is the parent of Chris and of Matt. */
module Demo {
  import opened Family
  import opened LowLevel
  import opened HighLevel

  /** Builds the store of the scenario, queries it and produces the report. */
  method RunDemo() returns (chris: Person, matt: Person,
                            johnsChildren: seq<Person>, chrissChildren: seq<Person>, lines: seq<string>)
    ensures chris.name == "Chris" && matt.name == "Matt" && chris != matt
    ensures johnsChildren == [chris, matt]
    ensures chrissChildren == []
    ensures lines == ["John has a child called Chris", "John has a child called Matt"]
  {
    var parent := new Person("John");
    chris := new Person("Chris");
    matt := new Person("Matt");

    var relationships := new Relationships();
    relationships.AddParentAndChild(parent, chris);
    relationships.AddParentAndChild(parent, matt);

    johnsChildren := relationships.FindAllChildrenOf("John");
    chrissChildren := relationships.FindAllChildrenOf("Chris");
    lines := Research(relationships);
    assert LinePrefix + chris.name == "John has a child called Chris";
    assert LinePrefix + matt.name == "John has a child called Matt";
  }

  /** Querying twice with no addition in between gives the same children both times. */
  method QueryTwice(store: Relationships, name: string) returns (first: seq<Person>, second: seq<Person>)
    ensures first == second
  {
    first := store.FindAllChildrenOf(name);
    second := store.FindAllChildrenOf(name);
  }
}
