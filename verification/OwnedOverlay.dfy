/**
 The two mutating loops of a receipt-driven sync, and the overlay they refine.
 Entry values are only ever compared and copied, so the loops are generic in them.
 */
module OwnedOverlay {
  import opened SetIteration

  /** The intended map: the user's entries, and every desired one that does not collide. */
  function Overlay<V>(user: map<string, V>, desired: map<string, V>): map<string, V> {
    desired + user
  }

  /** The entries that CC-Panes does not own. */
  function Foreign<V>(entries: map<string, V>, owned: set<string>): map<string, V> {
    map n | n in entries && n !in owned :: entries[n]
  }

  /** The names CC-Panes owns once the overlay is in place. */
  function Injected<V>(user: map<string, V>, desired: map<string, V>): set<string> {
    set n | n in desired && n !in user
  }

  /** The owned names whose entry is missing or out of date. */
  function Refreshed<V(==)>(entries: map<string, V>, desired: map<string, V>, owned: set<string>): set<string> {
    set n | n in owned && n in desired && !(n in entries && entries[n] == desired[n])
  }

  /** The owned names present in the file but no longer desired. */
  function Dropped<V>(entries: map<string, V>, desired: map<string, V>, owned: set<string>): set<string> {
    set n | n in owned && n in entries && n !in desired
  }

  /** The map once the names in `done` follow the desired set. */
  function Following<V>(before: map<string, V>, desired: map<string, V>, done: set<string>): map<string, V> {
    map n | n in before.Keys + desired.Keys && (if n in done then n in desired else n in before)
      :: if n in done then desired[n] else before[n]
  }

  /** The map once the second loop has passed the names in `done`. */
  function Filling<V>(kept: map<string, V>, desired: map<string, V>, owned: set<string>, done: set<string>)
    : map<string, V>
  {
    map n | n in kept.Keys + desired.Keys && (n in kept || (n in done && n !in owned))
      :: if n in kept then kept[n] else desired[n]
  }

  /** The names in `done` the second loop skips because the user has an entry of that name. */
  function Clashing<V>(kept: map<string, V>, owned: set<string>, done: set<string>): set<string> {
    set n | n in done && n !in owned && n in kept
  }

  /** The names in `done` the second loop adds. */
  function Fresh<V>(kept: map<string, V>, owned: set<string>, done: set<string>): set<string> {
    set n | n in done && n !in owned && n !in kept
  }

  // ---------------------------------------------------------------- one loop step

  lemma FollowOne<V>(before: map<string, V>, desired: map<string, V>, done: set<string>, name: string)
    requires name !in done
    ensures name in Following(before, desired, done) <==> name in before
    ensures name in before ==> Following(before, desired, done)[name] == before[name]
    ensures Following(before, desired, done + {name})
         == (if name in desired then Following(before, desired, done)[name := desired[name]]
             else Following(before, desired, done) - {name})
  {}

  lemma RefreshOne<V>(before: map<string, V>, desired: map<string, V>, done: set<string>, name: string)
    requires name !in done
    ensures |Refreshed(before, desired, done + {name})| == |Refreshed(before, desired, done)|
          + (if name in desired && !(name in before && before[name] == desired[name]) then 1 else 0)
  {
    assert Refreshed(before, desired, done + {name}) == Refreshed(before, desired, done)
      + (if name in desired && !(name in before && before[name] == desired[name]) then {name} else {});
  }

  lemma DropOne<V>(before: map<string, V>, desired: map<string, V>, done: set<string>, name: string)
    requires name !in done
    ensures |Dropped(before, desired, done + {name})| == |Dropped(before, desired, done)|
          + (if name in before && name !in desired then 1 else 0)
  {
    assert Dropped(before, desired, done + {name}) == Dropped(before, desired, done)
      + (if name in before && name !in desired then {name} else {});
  }

  lemma FillOne<V>(kept: map<string, V>, desired: map<string, V>, owned: set<string>, done: set<string>, name: string)
    requires name !in done && name in desired
    ensures var before, after := Filling(kept, desired, owned, done), Filling(kept, desired, owned, done + {name});
            && (name in before <==> name in kept)
            && (name in owned || name in kept ==> after == before)
            && (name !in owned && name !in kept ==> after == before[name := desired[name]])
  {}

  lemma FreshOne<V>(kept: map<string, V>, owned: set<string>, done: set<string>, name: string)
    requires name !in done
    ensures |Fresh(kept, owned, done + {name})|
         == |Fresh(kept, owned, done)| + (if name !in owned && name !in kept then 1 else 0)
  {
    assert Fresh(kept, owned, done + {name})
        == Fresh(kept, owned, done) + (if name !in owned && name !in kept then {name} else {});
  }

  // --------------------------------------------------------------------- the loops

  /** The first loop: every owned name is upserted when still desired, dropped otherwise. */
  method UpsertOwned<V(==)>(before: map<string, V>, desired: map<string, V>, owned: set<string>)
    returns (entries: map<string, V>, injected: nat, removed: nat)
    ensures entries == Following(before, desired, owned)
    ensures injected == |Refreshed(before, desired, owned)|
    ensures removed == |Dropped(before, desired, owned)|
  {
    entries, injected, removed := before, 0, 0;
    var todo := owned;
    ghost var done: set<string> := {};
    assert Following(before, desired, {}) == before;
    while todo != {}
      invariant Split(owned, done, todo)
      invariant entries == Following(before, desired, done)
      invariant injected == |Refreshed(before, desired, done)|
      invariant removed == |Dropped(before, desired, done)|
      decreases todo
    {
      var name :| name in todo;
      TakeOne(owned, done, todo, name);
      FollowOne(before, desired, done, name);
      RefreshOne(before, desired, done, name);
      DropOne(before, desired, done, name);
      if name in desired {
        if !(name in entries && entries[name] == desired[name]) { injected := injected + 1; }
        entries := entries[name := desired[name]];
      } else if name in entries {
        entries, removed := entries - {name}, removed + 1;
      }
      todo, done := todo - {name}, done + {name};
    }
    AllDone(owned, done);
  }

  /** The second loop: desired names that are not owned are added unless an entry is in the way. */
  method AddDesired<V(==)>(kept: map<string, V>, desired: map<string, V>, owned: set<string>)
    returns (entries: map<string, V>, injected: nat, collisions: set<string>)
    ensures entries == Filling(kept, desired, owned, desired.Keys)
    ensures injected == |Fresh(kept, owned, desired.Keys)|
    ensures collisions == Clashing(kept, owned, desired.Keys)
  {
    entries, injected, collisions := kept, 0, {};
    var names := desired.Keys;
    var todo := names;
    ghost var done: set<string> := {};
    assert Filling(kept, desired, owned, {}) == kept;
    while todo != {}
      invariant Split(names, done, todo)
      invariant entries == Filling(kept, desired, owned, done)
      invariant injected == |Fresh(kept, owned, done)|
      invariant forall n :: n in collisions <==> n in done && n !in owned && n in kept
      decreases todo
    {
      var name :| name in todo;
      TakeOne(names, done, todo, name);
      FillOne(kept, desired, owned, done, name);
      FreshOne(kept, owned, done, name);
      if name !in owned {
        if name in entries {
          collisions := collisions + {name};
        } else {
          entries, injected := entries[name := desired[name]], injected + 1;
        }
      }
      todo, done := todo - {name}, done + {name};
    }
    AllDone(names, done);
  }

  /** The two loops together put the overlay in place. */
  lemma LoopsGiveOverlay<V>(before: map<string, V>, desired: map<string, V>, owned: set<string>)
    ensures var kept := Following(before, desired, owned);
            && Filling(kept, desired, owned, desired.Keys) == Overlay(Foreign(before, owned), desired)
            && Fresh(kept, owned, desired.Keys) == Fresh(before, owned, desired.Keys)
            && Clashing(kept, owned, desired.Keys) == Clashing(before, owned, desired.Keys)
  {}

  /** `apply_desired`. */
  method ApplyDesired<V(==)>(before: map<string, V>, desired: map<string, V>, owned: set<string>)
    returns (entries: map<string, V>, injected: nat, removed: nat, collisions: set<string>)
    ensures entries == Overlay(Foreign(before, owned), desired)
    ensures injected == |Refreshed(before, desired, owned)| + |Fresh(before, owned, desired.Keys)|
    ensures removed == |Dropped(before, desired, owned)|
    ensures collisions == Clashing(before, owned, desired.Keys)
    ensures forall n :: n in collisions <==> n in desired && n in Foreign(before, owned)
  {
    LoopsGiveOverlay(before, desired, owned);
    var kept, upserted, dropped := UpsertOwned(before, desired, owned);
    var all, added, clashes := AddDesired(kept, desired, owned);
    entries, injected, removed, collisions := all, upserted + added, dropped, clashes;
  }

  /** `owned_names_after_sync`: what was owned and is still wanted, and what did not collide. */
  method OwnedNamesAfterSync(owned: set<string>, desired: set<string>, collisions: set<string>)
    returns (next: set<string>)
    ensures forall n :: n in next <==> n in desired && (n in owned || n !in collisions)
  {
    next := {};
    var todo := owned;
    while todo != {}
      invariant todo <= owned
      invariant forall n :: n in next <==> n in owned && n !in todo && n in desired
      decreases todo
    {
      var name :| name in todo;
      todo := todo - {name};
      if name in desired { next := next + {name}; }
    }
    todo := desired;
    while todo != {}
      invariant todo <= desired
      invariant forall n :: n in next <==> n in desired && (n in owned || (n !in todo && n !in collisions))
      decreases todo
    {
      var name :| name in todo;
      todo := todo - {name};
      if name !in collisions { next := next + {name}; }
    }
  }
}
