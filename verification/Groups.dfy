/** A Python dictionary of lists, filled with `d.setdefault(key, []).append(x)`; it keeps the order
    in which keys were first used. */
module Groups {
  import opened Sorting

  datatype Group<T> = Group(key: string, items: seq<T>)

  function Place<T>(gs: seq<Group<T>>, key: string, x: T): seq<Group<T>> {
    if gs == [] then [Group(key, [x])]
    else if gs[0].key == key then [Group(key, gs[0].items + [x])] + gs[1..]
    else [gs[0]] + Place(gs[1..], key, x)
  }

  /** `d.get(key, [])` */
  function Lookup<T>(gs: seq<Group<T>>, key: string): seq<T> {
    if gs == [] then []
    else if gs[0].key == key then gs[0].items
    else Lookup(gs[1..], key)
  }

  /** `sum(len(v) for v in d.values())` */
  function Total<T>(gs: seq<Group<T>>): nat {
    if gs == [] then 0 else |gs[0].items| + Total(gs[1..])
  }

  function AllItems<T>(gs: seq<Group<T>>): seq<T> {
    if gs == [] then [] else gs[0].items + AllItems(gs[1..])
  }

  predicate HasGroup<T>(gs: seq<Group<T>>, key: string) {
    gs != [] && (gs[0].key == key || HasGroup(gs[1..], key))
  }

  // Every key once, and only keys in use.
  predicate Keyed<T>(gs: seq<Group<T>>) {
    gs == [] || (gs[0].items != [] && !HasGroup(gs[1..], gs[0].key) && Keyed(gs[1..]))
  }

  /** The dictionary after the pairs have been placed in order. */
  function Grouped<T>(pairs: seq<(string, T)>): seq<Group<T>> {
    if pairs == [] then []
    else
      var last := pairs[|pairs| - 1];
      Place(Grouped(pairs[..|pairs| - 1]), last.0, last.1)
  }

  /** The items that belong under `key`, in order of arrival. */
  function Under<T>(pairs: seq<(string, T)>, key: string): seq<T> {
    if pairs == [] then []
    else
      var last := pairs[|pairs| - 1];
      Under(pairs[..|pairs| - 1], key) + if last.0 == key then [last.1] else []
  }

  lemma {:induction false} PlaceKeyed<T>(gs: seq<Group<T>>, key: string, x: T)
    requires Keyed(gs)
    ensures Keyed(Place(gs, key, x))
    ensures forall k :: HasGroup(Place(gs, key, x), k) <==> k == key || HasGroup(gs, k)
  {
    if gs != [] && gs[0].key != key { PlaceKeyed(gs[1..], key, x); }
  }

  lemma {:induction false} HasGroupMember<T>(gs: seq<Group<T>>, g: Group<T>)
    requires g in gs
    ensures HasGroup(gs, g.key)
  {
    if g != gs[0] { HasGroupMember(gs[1..], g); }
  }

  lemma {:induction false} KeysDistinct<T>(gs: seq<Group<T>>)
    requires Keyed(gs)
    ensures forall i, j | 0 <= i < j < |gs| :: gs[i].key != gs[j].key
    ensures forall g | g in gs :: g.items != []
  {
    if gs == [] {
    } else {
      KeysDistinct(gs[1..]);
      forall j | 0 < j < |gs| ensures gs[j].key != gs[0].key {
        assert gs[j] in gs[1..];
        HasGroupMember(gs[1..], gs[j]);
      }
    }
  }

  lemma {:induction false} PlaceTotal<T>(gs: seq<Group<T>>, key: string, x: T)
    ensures Total(Place(gs, key, x)) == Total(gs) + 1
  {
    if gs != [] && gs[0].key != key { PlaceTotal(gs[1..], key, x); }
  }

  lemma {:induction false} PlaceLookup<T>(gs: seq<Group<T>>, key: string, x: T, k: string)
    ensures Lookup(Place(gs, key, x), k) == Lookup(gs, k) + if k == key then [x] else []
  {
    if gs != [] && gs[0].key != key { PlaceLookup(gs[1..], key, x, k); }
  }

  lemma {:induction false} LookupMember<T>(gs: seq<Group<T>>, g: Group<T>)
    requires Keyed(gs) && g in gs
    ensures Lookup(gs, g.key) == g.items
  {
    if g != gs[0] {
      HasGroupMember(gs[1..], g);
      LookupMember(gs[1..], g);
    }
  }

  lemma {:induction false} LookupFound<T>(gs: seq<Group<T>>, key: string)
    requires Lookup(gs, key) != []
    ensures Group(key, Lookup(gs, key)) in gs
  {
    if gs[0].key != key { LookupFound(gs[1..], key); }
  }

  /** Each key holds exactly its own items in order of arrival; together the groups hold every
      pair once. */
  lemma {:induction false} GroupedExact<T>(pairs: seq<(string, T)>)
    ensures Keyed(Grouped(pairs))
    ensures Total(Grouped(pairs)) == |pairs|
    ensures forall k :: Lookup(Grouped(pairs), k) == Under(pairs, k)
  {
    if pairs == [] {
    } else {
      var last := pairs[|pairs| - 1];
      var before := Grouped(pairs[..|pairs| - 1]);
      GroupedExact(pairs[..|pairs| - 1]);
      PlaceKeyed(before, last.0, last.1);
      PlaceTotal(before, last.0, last.1);
      forall k ensures Lookup(Grouped(pairs), k) == Under(pairs, k) { PlaceLookup(before, last.0, last.1, k); }
    }
  }

  /** The groups are exactly the keys in use with their items. */
  lemma GroupMembers<T>(pairs: seq<(string, T)>, g: Group<T>)
    ensures g in Grouped(pairs) <==> g.items == Under(pairs, g.key) && g.items != []
  {
    GroupedExact(pairs);
    if g in Grouped(pairs) {
      LookupMember(Grouped(pairs), g);
      KeysDistinct(Grouped(pairs));
    } else if g.items == Under(pairs, g.key) && g.items != [] {
      LookupFound(Grouped(pairs), g.key);
    }
  }

  lemma {:induction false} InsertTotal<T>(g: Group<T>, gs: seq<Group<T>>, leq: (Group<T>, Group<T>) -> bool)
    ensures Total(Insert(g, gs, leq)) == |g.items| + Total(gs)
  {
    if gs != [] && !leq(g, gs[0]) {
      InsertTotal(g, gs[1..], leq);
    }
  }

  /** Sorting the groups does not change their total. */
  lemma {:induction false} SortTotal<T>(gs: seq<Group<T>>, leq: (Group<T>, Group<T>) -> bool)
    ensures Total(Sort(gs, leq)) == Total(gs)
  {
    if gs == [] {
    } else {
      SortTotal(gs[1..], leq);
      InsertTotal(gs[0], Sort(gs[1..], leq), leq);
    }
  }

  lemma {:induction false} PlaceItems<T>(gs: seq<Group<T>>, key: string, x: T)
    ensures multiset(AllItems(Place(gs, key, x))) == multiset(AllItems(gs)) + multiset{x}
  {
    if gs != [] && gs[0].key != key { PlaceItems(gs[1..], key, x); }
  }

  function Seconds<T>(pairs: seq<(string, T)>): (r: seq<T>)
    ensures |r| == |pairs| && forall i | 0 <= i < |pairs| :: r[i] == pairs[i].1
  {
    seq(|pairs|, i requires 0 <= i < |pairs| => pairs[i].1)
  }

  /** The groups together hold what was placed, each item once. */
  lemma {:induction false} GroupedItems<T>(pairs: seq<(string, T)>)
    ensures multiset(AllItems(Grouped(pairs))) == multiset(Seconds(pairs))
  {
    if pairs == [] {
    } else {
      var init, last := pairs[..|pairs| - 1], pairs[|pairs| - 1];
      GroupedItems(init);
      PlaceItems(Grouped(init), last.0, last.1);
      assert Seconds(pairs) == Seconds(init) + [last.1];
    }
  }

  lemma {:induction false} InsertItems<T>(g: Group<T>, gs: seq<Group<T>>, leq: (Group<T>, Group<T>) -> bool)
    ensures multiset(AllItems(Insert(g, gs, leq))) == multiset(g.items) + multiset(AllItems(gs))
  {
    if gs != [] && !leq(g, gs[0]) { InsertItems(g, gs[1..], leq); }
  }

  /** Sorting the groups keeps every item. */
  lemma {:induction false} SortItems<T>(gs: seq<Group<T>>, leq: (Group<T>, Group<T>) -> bool)
    ensures multiset(AllItems(Sort(gs, leq))) == multiset(AllItems(gs))
  {
    if gs == [] {
    } else {
      SortItems(gs[1..], leq);
      InsertItems(gs[0], Sort(gs[1..], leq), leq);
    }
  }

  // Larger groups first.
  predicate BySize<T>(g: Group<T>, h: Group<T>) {
    |g.items| >= |h.items|
  }
}
