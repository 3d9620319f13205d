# Dependency Inversion example: the relationship store

This project models the family-relationship example of the Dependency Inversion
Principle in `Solid/DependencyInversionPrinciple.cs`. The low-level store
`Relationships` keeps an append-only list of `(Person, Relationship, Person)`
facts. `AddParentAndChild` appends a symmetric pair of facts to it, and
`FindAllChildrenOf(name)` returns, in insertion order, the object of every
`Parent` fact whose subject has that name. The high-level `Research` asks for the
children of "John" and writes one line per child. `RunDemo` records John as the
parent of Chris and of Matt, then runs the report.

Files and modules:

- `facts.dfy`, module `Family`. It holds the data model: `Relationship`, `Person`
  (a class, so that two people with the same name stay distinct) and `Fact`. It
  also holds the specification of the query (`ChildrenOf` and `MatchingIndices`),
  the pairing invariant (`Paired`, with `Expand`/`Pairs` as its reference
  definition) and the lemmas about them.
- `store.dfy`, module `LowLevel`. The class `Relationships` has the fact sequence
  as a field, `Valid()` (the pairing invariant), `AddParentAndChild` (which
  modifies the store) and `FindAllChildrenOf` (a scanning loop proved equal to
  `ChildrenOf`).
- `research.dfy`, module `HighLevel`. `Research` computes the report lines.
- `demo.dfy`, module `Demo`. It holds the demonstration scenario and a client
  that runs the query twice.

Two points of the code the model keeps as they are:

- The query yields results in insertion order, and the model proves that order.
- `Research` hard-codes "John" twice: once as the queried name, once in the text
  of the line. The model uses the literal in both places.

## Model

| member | source | states |
|---|---|---|
| Family.Person.constructor | Solid/DependencyInversionPrinciple.cs:12-16 | a person carries the name it was created with |
| Family.Matches | Solid/DependencyInversionPrinciple.cs:37 | the filter of the query: the subject's name equals the queried name and the kind is Parent |
| Family.PairFacts | Solid/DependencyInversionPrinciple.cs:30-31 | the two facts one addition appends, (parent, Parent, child) then (child, Child, parent) |
| Family.Paired | Solid/DependencyInversionPrinciple.cs:26-32 | the pairing invariant behind Valid(): even length, and each even position holds (a, Parent, b) followed by (b, Child, a) |
| Family.ChildrenOf | Solid/DependencyInversionPrinciple.cs:35-41 | the query yields at most one person per stored fact |
| Family.ChildIsStoredObject | Solid/DependencyInversionPrinciple.cs:37-39 | every child the query yields is the object of some stored fact whose subject has the name and whose kind is Parent |
| Family.MatchingIndices | Solid/DependencyInversionPrinciple.cs:37 | the positions of the matching facts: strictly increasing, each one a match, and every matching position among them |
| Family.ChildrenOfAppend | Solid/DependencyInversionPrinciple.cs:35-41 | the query over a concatenation of fact lists is the query over the first list followed by the query over the second |
| Family.ChildrenOfIsProjection | Solid/DependencyInversionPrinciple.cs:37-40 | the query yields exactly the objects of the matching facts in list order: entry j is the object of the fact at the j-th matching position |
| Family.EmptyIffNoMatch | Solid/DependencyInversionPrinciple.cs:35-41 | the query is empty if and only if no fact matches the name (an unknown name gives an empty result, not an error) |
| Family.StoredChildIsFound | Solid/DependencyInversionPrinciple.cs:30-39 | the object of every stored Parent fact is in the query result for its subject's name |
| Family.Expand | Solid/DependencyInversionPrinciple.cs:28-32 | the facts recorded by a sequence of additions: twice as many facts, with (p, Parent, c) at 2k and (c, Child, p) at 2k+1 for the k-th addition |
| Family.ExpandIsPaired | Solid/DependencyInversionPrinciple.cs:26-32 | every sequence of additions gives paired facts, and the additions can be read back from them |
| Family.PairedIsExpansion | Solid/DependencyInversionPrinciple.cs:26-32 | every paired fact list is exactly the expansion of the additions it records (with ExpandIsPaired: paired iff built only by additions) |
| Family.PairedAppend | Solid/DependencyInversionPrinciple.cs:28-32 | appending a (parent, Parent, child), (child, Child, parent) pair keeps the facts paired |
| Family.PairedHasNoSibling | Solid/DependencyInversionPrinciple.cs:5-32 | in a paired list the Parent facts sit at exactly the even positions and the Child facts at exactly the odd ones, so no Sibling fact is ever stored |
| Family.ChildHasPairedFacts | Solid/DependencyInversionPrinciple.cs:28-41 | each child the query yields comes from a whole pair: (p, Parent, c) at an even position, with p having the name, followed by (c, Child, p) |
| Family.ChildFactIsFound | Solid/DependencyInversionPrinciple.cs:28-41 | the subject of every stored Child fact is in the query result for its parent's name |
| Family.AddExtendsQuery | Solid/DependencyInversionPrinciple.cs:28-41 | after adding a pair, the query for the parent's name is the old result followed by the child, and the query for any other name is unchanged |
| Family.AddTwiceRepeatsChild | Solid/DependencyInversionPrinciple.cs:28-40 | no deduplication: adding the same pair twice appends the child twice |
| LowLevel.Relationships.constructor | Solid/DependencyInversionPrinciple.cs:26 | a new store holds no facts and satisfies the pairing invariant |
| LowLevel.Relationships.AddParentAndChild | Solid/DependencyInversionPrinciple.cs:28-32 | the facts become the old facts followed by (parent, Parent, child) and (child, Child, parent); the pairing invariant is kept; for every name the query gains the child exactly when the name is the parent's |
| LowLevel.Relationships.FindAllChildrenOf | Solid/DependencyInversionPrinciple.cs:35-41 | the scan changes nothing and returns exactly the query specification over the current facts |
| HighLevel.Research | Solid/DependencyInversionPrinciple.cs:62-68 | one line per child of "John", in query order, each being "John has a child called " followed by that child's name |
| Demo.RunDemo | Solid/DependencyInversionPrinciple.cs:73-84 | after adding (John, Chris) and (John, Matt), John's children are exactly [Chris, Matt], Chris has none, and the report is the two lines for Chris and then Matt |
| Demo.QueryTwice | Solid/DependencyInversionPrinciple.cs:35-41 | two queries with no addition between them return equal sequences |

## Left out

- Console output in `Research`: the model returns the lines that would be written and does not write them.
- Lazy enumeration (`yield return` over LINQ `Where`): the query returns a finite sequence computed from the current facts. When a re-enumeration happens is not modelled.
- The `IRelationshipBrowser` interface: Dafny traits are not used here. `Research` takes the concrete store and only calls its `FindAllChildrenOf`, which is the only member the interface exposes.
- Privacy of the fact list: Dafny fields are public, so the pairing invariant is carried as `Valid()`, required and ensured by `AddParentAndChild`, rather than enforced by access control.
- Renaming a person after storing them: the C# `Name` field is public and mutable, but the model fixes the name at construction (`const`). Null people and the commented-out `DateOfBirth` field are not modelled.
- The commented-out alternative that exposes the list and has `Research` depend on the concrete type: it is disabled code.
