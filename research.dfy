/** The high-level component: it asks the store for the children of "John" and
    produces one report line per child, in the order the store yields them. */
module HighLevel {
  import opened Family
  import opened LowLevel

  /** The text of every report line before the child's name. */
  const LinePrefix: string := "John has a child called "

  /** The lines the report would write: line j names the j-th child of "John",
      and there are exactly as many lines as children. */
  method Research(browser: Relationships) returns (lines: seq<string>)
    ensures |lines| == |ChildrenOf(browser.relations, "John")|
    ensures forall j :: 0 <= j < |lines| ==>
              lines[j] == LinePrefix + ChildrenOf(browser.relations, "John")[j].name
  {
    var children := browser.FindAllChildrenOf("John");
    lines := [];
    for i := 0 to |children|
      invariant |lines| == i
      invariant forall j :: 0 <= j < i ==> lines[j] == LinePrefix + children[j].name
    {
      lines := lines + [LinePrefix + children[i].name];
    }
  }
}
