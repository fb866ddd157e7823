// The insertion-ordered set of strings of the source-map library: an array of the strings, and an
// object that remembers at which index each string came first.
module ArraySets {
  import opened Wrappers

  // The index of the first occurrence of s.
  function FirstIndex(strings: seq<string>, s: string): (i: Option<nat>)
    ensures i.None? <==> s !in strings
    ensures i.Some? ==> i.value < |strings| && strings[i.value] == s && s !in strings[..i.value]
  {
    if strings == [] then None
    else if strings[0] == s then Some(0)
    else match FirstIndex(strings[1..], s)
      case None => None
      case Some(i) =>
        assert strings[..i + 1] == [strings[0]] + strings[1..][..i];
        Some(i + 1)
  }

  // An appended string changes no first index.
  lemma {:induction false} FirstIndexAppend(strings: seq<string>, t: string, s: string)
    ensures s in strings ==> FirstIndex(strings + [t], s) == FirstIndex(strings, s)
    ensures s !in strings && s == t ==> FirstIndex(strings + [t], s) == Some(|strings|)
  {
    if strings != [] {
      FirstIndexAppend(strings[1..], t, s);
      assert (strings + [t])[1..] == strings[1..] + [t];
    }
  }

  ghost predicate NoDuplicates(strings: seq<string>) {
    forall i, j :: 0 <= i < j < |strings| ==> strings[i] != strings[j]
  }

  // The items stand in the order in which the strings have them first.
  ghost predicate InFirstOrder(items: seq<string>, strings: seq<string>) {
    && (forall s :: s in items <==> s in strings)
    && forall i, j :: 0 <= i < j < |items| ==>
                        FirstIndex(strings, items[i]).value < FirstIndex(strings, items[j]).value
  }

  lemma EmptySet()
    ensures NoDuplicates([]) && InFirstOrder([], [])
  {
  }

  lemma FirstOrderGrows(items: seq<string>, strings: seq<string>, s: string)
    requires InFirstOrder(items, strings)
    ensures InFirstOrder(if s in items then items else items + [s], strings + [s])
  {
    forall t ensures t in strings ==> FirstIndex(strings + [s], t) == FirstIndex(strings, t)
             ensures t !in strings && t == s ==> FirstIndex(strings + [s], t) == Some(|strings|)
    {
      FirstIndexAppend(strings, s, t);
    }
  }

  class ArraySet {
    var items: seq<string>
    var indices: map<string, nat>

    ghost predicate Valid()
      reads this
    {
      && (forall s :: s in indices <==> s in items)
      && (forall s :: s in indices ==> FirstIndex(items, s) == Some(indices[s]))
    }

    constructor ()
      ensures Valid() && items == []
    {
      items, indices := [], map[];
    }

    method Add(s: string, allowDuplicates: bool)
      requires Valid()
      modifies this
      ensures Valid()
      ensures items == if s in old(items) && !allowDuplicates then old(items) else old(items) + [s]
      ensures NoDuplicates(old(items)) && !allowDuplicates ==> NoDuplicates(items)
    {
      var isDuplicate := Has(s);
      var idx := |items|;
      forall t ensures t in items ==> FirstIndex(items + [s], t) == FirstIndex(items, t)
              ensures t !in items && t == s ==> FirstIndex(items + [s], t) == Some(|items|)
      {
        FirstIndexAppend(items, s, t);
      }
      if !isDuplicate || allowDuplicates {
        items := items + [s];
      }
      if !isDuplicate {
        indices := indices[s := idx];
      }
    }

    static method FromArray(strings: seq<string>, allowDuplicates: bool) returns (r: ArraySet)
      ensures r.Valid() && fresh(r)
      ensures allowDuplicates ==> r.items == strings
      ensures !allowDuplicates ==> NoDuplicates(r.items) && InFirstOrder(r.items, strings)
      ensures forall s :: s in r.items <==> s in strings
    {
      hide InFirstOrder, NoDuplicates;
      r := new ArraySet();
      EmptySet();
      for i := 0 to |strings|
        invariant r.Valid() && fresh(r)
        invariant allowDuplicates ==> r.items == strings[..i]
        invariant !allowDuplicates ==> NoDuplicates(r.items) && InFirstOrder(r.items, strings[..i])
        invariant forall s :: s in r.items <==> s in strings[..i]
      {
        assert strings[..i + 1] == strings[..i] + [strings[i]];
        if !allowDuplicates {
          FirstOrderGrows(r.items, strings[..i], strings[i]);
        }
        r.Add(strings[i], allowDuplicates);
      }
      assert strings[..|strings|] == strings;
    }

    predicate Has(s: string)
      requires Valid()
      reads this
      ensures Has(s) <==> s in items
    {
      s in indices
    }

    // None stands for the exception thrown for a string that is not in the set.
    function IndexOf(s: string): (i: Option<nat>)
      requires Valid()
      reads this
      ensures i == FirstIndex(items, s)
    {
      if Has(s) then Some(indices[s]) else None
    }

    // None stands for the exception thrown for an index outside the array.
    function At(i: int): (s: Option<string>)
      reads this
      ensures s == AtIndex(items, i)
    {
      if 0 <= i < |items| then Some(items[i]) else None
    }
  }

  function AtIndex(strings: seq<string>, i: int): Option<string> {
    if 0 <= i < |strings| then Some(strings[i]) else None
  }
}
