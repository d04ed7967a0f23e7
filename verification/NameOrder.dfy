/** Lists of names in dictionary order. */
module NameOrder {
  import opened Lists
  import opened Strings
  import StableSort

  function SortedNames(names: seq<string>): (r: seq<string>)
    ensures |r| == |names|
  {
    StableSort.Sorted(names, Less)
  }

  lemma NamesAreOrdered(names: seq<string>)
    ensures StableSort.WeakOrder(Less) && StableSort.NoTies(names, Less)
  {
    forall a, b, c
      ensures Less(a, b) ==> !Less(b, a)
      ensures a == b || Less(a, b) || Less(b, a)
      ensures !Less(b, a) && !Less(c, b) ==> !Less(c, a)
    {
      LessIsTotal(a, b);
      if !Less(b, a) && !Less(c, b) {
        NotLessIsTransitive(a, b, c);
      }
    }
  }

  lemma SortingKeepsNames(names: seq<string>)
    ensures forall name :: name in SortedNames(names) <==> name in names
  {
    NamesAreOrdered(names);
    StableSort.SameElements(names, Less);
  }

  /** Sorted lists of distinct names tell exactly which names there are. */
  lemma SortedNamesTell(a: seq<string>, b: seq<string>)
    requires Distinct(a) && Distinct(b)
    ensures SortedNames(a) == SortedNames(b) <==> forall name :: name in a <==> name in b
  {
    NamesAreOrdered(a);
    SortingKeepsNames(a);
    SortingKeepsNames(b);
    if forall name :: name in a <==> name in b {
      StableSort.SortedBySet(a, b, Less);
    }
  }
}
