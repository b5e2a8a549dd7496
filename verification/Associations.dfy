/** The association manager's table: the keys under which each object strongly holds another. */
module Associations {

  type Object = nat
  type Key = nat
  type Table = map<Object, set<Key>>

  datatype Policy = Assign | RetainNonatomic | CopyNonatomic | Retain | Copy

  /** Only these count as strong references. */
  predicate Retains(policy: Policy)
  {
    policy.Retain? || policy.RetainNonatomic?
  }

  function WithKey(table: Table, owner: Object, key: Key): Table
  {
    table[owner := (if owner in table then table[owner] else {}) + {key}]
  }

  function WithoutKey(table: Table, owner: Object, key: Key): Table
  {
    if owner in table then table[owner := table[owner] - {key}] else table
  }

  /** What the hooks tell the table. */
  datatype Change =
    | Associate(owner: Object, key: Key, nonNil: bool, policy: Policy)
    | Disassociate(owner: Object)

  function Changed(table: Table, c: Change): Table
  {
    match c
    case Associate(owner, key, nonNil, policy) =>
      if Retains(policy) && nonNil then WithKey(table, owner, key) else WithoutKey(table, owner, key)
    case Disassociate(owner) => table - {owner}
  }

  predicate Tracked(table: Table, owner: Object, key: Key)
  {
    owner in table && key in table[owner]
  }

  /** A non-nil value is stored under the key with one of the two retain policies. */
  predicate Stores(c: Change, owner: Object, key: Key)
  {
    || c == Associate(owner, key, true, Policy.Retain)
    || c == Associate(owner, key, true, Policy.RetainNonatomic)
  }

  /** nil, or a value with one of the other three policies, is stored under the key, or all associations of the owner
      are removed. */
  predicate Removes(c: Change, owner: Object, key: Key)
  {
    match c
    case Associate(o, k, nonNil, policy) =>
      o == owner && k == key && (!nonNil || policy == Assign || policy == CopyNonatomic || policy == Policy.Copy)
    case Disassociate(o) => o == owner
  }

  /** What one call of a hook does, for each policy: a non-nil value stored with a retain policy is tracked; nil, and
      a value with any other policy, is not; removing all associations leaves none of the owner's; and nothing else
      changes. */
  lemma TrackedAfter(table: Table, c: Change, owner: Object, key: Key)
    ensures Tracked(Changed(table, c), owner, key) <==>
      match c
      case Associate(o, k, nonNil, Retain) => if o == owner && k == key then nonNil else Tracked(table, owner, key)
      case Associate(o, k, nonNil, RetainNonatomic) =>
        if o == owner && k == key then nonNil else Tracked(table, owner, key)
      case Associate(o, k, _, Assign) => !(o == owner && k == key) && Tracked(table, owner, key)
      case Associate(o, k, _, CopyNonatomic) => !(o == owner && k == key) && Tracked(table, owner, key)
      case Associate(o, k, _, Copy) => !(o == owner && k == key) && Tracked(table, owner, key)
      case Disassociate(o) => o != owner && Tracked(table, owner, key)
  {
  }

  lemma StoresOrRemoves(table: Table, c: Change, owner: Object, key: Key)
    ensures Tracked(Changed(table, c), owner, key) <==>
      Stores(c, owner, key) || (Tracked(table, owner, key) && !Removes(c, owner, key))
  {
    TrackedAfter(table, c, owner, key);
  }

  /** The table in memory, as the hooks update it. */
  class AssociationTable {
    var entries: Table

    constructor ()
      ensures entries == map[]
    {
      entries := map[];
    }

    method ResetAssociationAtKey(owner: Object, key: Key)
      modifies this
      ensures entries == WithoutKey(old(entries), owner, key)
    {
      if owner !in entries {
        return;
      }
      var refs := entries[owner];
      if key in refs {
        entries := entries[owner := refs - {key}];
      } else {
        assert refs - {key} == refs;
        assert entries[owner := refs] == entries;
      }
    }

    method SetStrongAssociation(owner: Object, key: Key, nonNil: bool)
      modifies this
      ensures entries == if nonNil then WithKey(old(entries), owner, key) else WithoutKey(old(entries), owner, key)
    {
      if nonNil {
        var refs: set<Key> := {};
        if owner in entries {
          refs := entries[owner];
        }
        entries := entries[owner := refs + {key}];
      } else {
        ResetAssociationAtKey(owner, key);
      }
    }

    /** What the hook of objc_setAssociatedObject does before it calls the original. */
    method SetAssociatedObject(owner: Object, key: Key, nonNil: bool, policy: Policy)
      modifies this
      ensures entries == Changed(old(entries), Associate(owner, key, nonNil, policy))
      ensures entries == if nonNil && (policy == Retain || policy == RetainNonatomic)
                         then WithKey(old(entries), owner, key) else WithoutKey(old(entries), owner, key)
    {
      if policy == Retain || policy == RetainNonatomic {
        SetStrongAssociation(owner, key, nonNil);
      } else {
        ResetAssociationAtKey(owner, key);
      }
    }

    /** What the hook of objc_removeAssociatedObjects does before it calls the original. */
    method RemoveAssociatedObjects(owner: Object)
      modifies this
      ensures entries == Changed(old(entries), Disassociate(owner)) == old(entries) - {owner}
    {
      if owner in entries {
        entries := entries - {owner};
      } else {
        assert entries - {owner} == entries;
      }
    }

    method CleanUp()
      modifies this
      ensures entries == map[]
    {
      entries := map[];
    }
  }
}
