/**
 * What the registry promises across several calls: round trips through
 * register / getContext / unregister, ordering by index, whole-group
 * removal, lookup through an interface with an equal hash, rejection of a
 * second registration, and access gating by the oracle and the password.
 */
module PoolProperties {
  import opened Contexts
  import opened Groups
  import opened PoolSpec

  /** Two entries of a duplicate-free sequence with the same context are the same entry. */
  lemma DistinctSameContext(s: seq<Entry>, e1: Entry, e2: Entry)
    requires Distinct(s) && e1 in s && e2 in s && e1.context.id == e2.context.id
    ensures e1 == e2
  {
    var i :| 0 <= i < |s| && s[i] == e1;
    var j :| 0 <= j < |s| && s[j] == e2;
  }

  /**
   * Stated on its own so that the solver proves it outside the large
   * context of the scenario lemma that uses it.
   */
  lemma AppendPair<T>(s: seq<T>, a: T, b: T)
    ensures s + [a] + [b] == s + [a, b]
  {
  }

  /** Dropping the entries of the only owner of s leaves nothing. */
  lemma DroppedSoleOwner(s: seq<Entry>, owner: Id)
    requires forall e :: e in s ==> e.owner == owner
    ensures Dropped(s, owner) == []
  {
  }

  /** A requester permitted to see every entry of s sees every context of s, in order. */
  lemma {:induction false} SeenAllPermitted(s: seq<Entry>, admin: Id, conn: Connections, requester: Id)
    requires forall e :: e in s ==> Permits(admin, conn, requester, e.owner)
    ensures |Seen(s, admin, conn, requester)| == |s|
    ensures forall k :: 0 <= k < |s| ==> Seen(s, admin, conn, requester)[k] == s[k].context
  {
    if s != [] {
      var init := s[..|s| - 1];
      SeenAllPermitted(init, admin, conn, requester);
      assert s == init + [s[|s| - 1]];
      SeenAppend(init, s[|s| - 1], admin, conn, requester);
    }
  }

  /**
   * A requester permitted to see every context registered under the hash
   * finds the index-th of them.
   */
  lemma LookupAllPermitted(s: Registry, requester: Id, iface: Iface, index: int)
    requires IsContextInterface(iface) && s.computer.Some?
    requires forall e :: e in Bucket(s.table, iface.hash) ==> Permits(s.adminId, s.computer.value, requester, e.owner)
    ensures var b := Bucket(s.table, iface.hash);
      Lookup(s, requester, Some(iface), index)
        == if 0 <= index < |b| then Ok(Some(b[index].context)) else Ok(None)
  {
    SeenAllPermitted(Bucket(s.table, iface.hash), s.adminId, s.computer.value, requester);
  }

  /**
   * With a computer installed, the administrator's id finds the index-th
   * context registered under the hash, whatever the oracle answers.
   */
  lemma AdminSeesAll(s: Registry, iface: Iface, index: int)
    requires IsContextInterface(iface) && s.computer.Some?
    ensures var b := Bucket(s.table, iface.hash);
      Lookup(s, s.adminId, Some(iface), index)
        == if 0 <= index < |b| then Ok(Some(b[index].context)) else Ok(None)
  {
    LookupAllPermitted(s, s.adminId, iface, index);
  }

  /**
   * register(owner, c, iface) on a hash nobody registered under yet, then
   * getContext(requester, iface) with the default index 0 finds c, and
   * unregister(owner, iface) answers true.
   */
  lemma RegisterThenLookup(s: Registry, owner: Id, c: Instance, iface: Iface, requester: Id)
    requires IsContextInterface(iface) && Implements(c, iface) && !IsRegistered(s.table, c)
    requires Bucket(s.table, iface.hash) == []
    requires s.computer.Some? && Permits(s.adminId, s.computer.value, requester, owner)
    ensures var n := Register(s, owner, c, iface);
      && n.out == Ok(())
      && Lookup(n.next, requester, Some(iface), 0) == Ok(Some(c))
      && Unregister(n.next, owner, iface).out == Ok(true)
  {
    var n := Register(s, owner, c, iface);
    assert Bucket(n.next.table, iface.hash) == [] + [Entry(owner, c)];
    SeenAppend([], Entry(owner, c), s.adminId, s.computer.value, requester);
  }

  /**
   * After any successful register(owner, c, iface), a requester that may see
   * owner finds c through iface, at the index that counts the contexts it
   * could already see under the interface's hash.
   */
  lemma RegisterThenFound(s: Registry, owner: Id, c: Instance, iface: Iface, requester: Id)
    requires Register(s, owner, c, iface).out.Ok?
    requires s.computer.Some? && Permits(s.adminId, s.computer.value, requester, owner)
    ensures var n := Register(s, owner, c, iface).next;
      Lookup(n, requester, Some(iface), |Seen(Bucket(s.table, iface.hash), s.adminId, s.computer.value, requester)|)
        == Ok(Some(c))
  {
    var n := Register(s, owner, c, iface).next;
    var b := Bucket(s.table, iface.hash);
    RegisterEffect(s, owner, c, iface);
    assert Bucket(n.table, iface.hash)[..|b|] == b;
    LookupComplete(n, requester, iface, |b|);
  }

  /**
   * Two contexts registered by one owner under one interface are found by
   * index in registration order; one unregister removes both, after which
   * the lookup finds nothing.
   */
  lemma RegisterTwiceThenIndex(s: Registry, owner: Id, c1: Instance, c2: Instance, iface: Iface, requester: Id)
    requires IsContextInterface(iface) && Implements(c1, iface) && Implements(c2, iface)
    requires c1.id != c2.id && !IsRegistered(s.table, c1) && !IsRegistered(s.table, c2)
    requires Bucket(s.table, iface.hash) == []
    requires s.computer.Some? && Permits(s.adminId, s.computer.value, requester, owner)
    ensures var n1 := Register(s, owner, c1, iface);
      var n2 := Register(n1.next, owner, c2, iface);
      var u := Unregister(n2.next, owner, iface);
      && n1.out == Ok(()) && n2.out == Ok(())
      && Lookup(n2.next, requester, Some(iface), 0) == Ok(Some(c1))
      && Lookup(n2.next, requester, Some(iface), 1) == Ok(Some(c2))
      && u.out == Ok(true)
      && Lookup(u.next, requester, Some(iface), 0) == Ok(None)
  {
    var h, conn := iface.hash, s.computer.value;
    var e1, e2 := Entry(owner, c1), Entry(owner, c2);
    var n1 := Register(s, owner, c1, iface);
    assert n1.out == Ok(()) && Bucket(n1.next.table, h) == [e1] && !IsRegistered(n1.next.table, c2)
      && n1.next.computer == s.computer && n1.next.adminId == s.adminId by {
      RegisterEffect(s, owner, c1, iface);
    }
    var n2 := Register(n1.next, owner, c2, iface);
    assert n2.out == Ok(()) && Bucket(n2.next.table, h) == [e1, e2]
      && n2.next.computer == s.computer && n2.next.adminId == s.adminId by {
      RegisterEffect(n1.next, owner, c2, iface);
      assert [e1] + [e2] == [e1, e2];
    }
    assert Lookup(n2.next, requester, Some(iface), 0) == Ok(Some(c1))
        && Lookup(n2.next, requester, Some(iface), 1) == Ok(Some(c2)) by {
      LookupAllPermitted(n2.next, requester, iface, 0);
      LookupAllPermitted(n2.next, requester, iface, 1);
    }
    var u := Unregister(n2.next, owner, iface);
    assert u.out == Ok(true) && Bucket(u.next.table, h) == [] by {
      assert c1 in Group(n2.next.table, owner, h);
      DroppedSoleOwner([e1, e2], owner);
    }
    assert Lookup(u.next, requester, Some(iface), 0) == Ok(None) by {
      LookupAllPermitted(u.next, requester, iface, 0);
    }
  }

  /**
   * After unregister(owner, iface) the owner's group under that hash is
   * empty, and no lookup through the interface finds any context of the
   * removed group, at any index and for any requester.
   */
  lemma UnregisterHidesGroup(s: Registry, owner: Id, iface: Iface, requester: Id, index: int)
    requires Valid(s) && IsContextInterface(iface)
    ensures var u := Unregister(s, owner, iface);
      && Group(u.next.table, owner, iface.hash) == []
      && forall c :: Lookup(u.next, requester, Some(iface), index) == Ok(Some(c))
           ==> c !in Group(s.table, owner, iface.hash)
  {
    var u := Unregister(s, owner, iface);
    var h := iface.hash;
    UnregisterEffect(s, owner, iface);
    var r := Lookup(u.next, requester, Some(iface), index);
    LookupSound(u.next, requester, Some(iface), index);
    if r.Ok? && r.value.Some? && u.out == Ok(true) {
      var c := r.value.value;
      var e :| e in Bucket(u.next.table, h) && e.context == c
        && Permits(s.adminId, s.computer.value, requester, e.owner);
      assert e in Bucket(s.table, h) && e.owner != owner;
      if c in Group(s.table, owner, h) {
        assert h in s.table;
        DistinctSameContext(s.table[h], e, Entry(owner, c));
      }
    }
  }

  /**
   * An instance registered under iface is also found through any annotated
   * interface with the same hash (an empty sub-interface of iface, say),
   * although the instance does not implement that interface.
   */
  lemma LookupThroughEqualHash(s: Registry, owner: Id, c: Instance, iface: Iface, sub: Iface, requester: Id)
    requires IsContextInterface(iface) && Implements(c, iface) && !IsRegistered(s.table, c)
    requires IsContextInterface(sub) && sub.hash == iface.hash
    requires Bucket(s.table, iface.hash) == []
    requires s.computer.Some? && Permits(s.adminId, s.computer.value, requester, owner)
    ensures var n := Register(s, owner, c, iface);
      && Lookup(n.next, requester, Some(iface), 0) == Ok(Some(c))
      && Lookup(n.next, requester, Some(sub), 0) == Ok(Some(c))
      && Unregister(n.next, owner, iface).out == Ok(true)
  {
    RegisterThenLookup(s, owner, c, iface, requester);
  }

  /**
   * Once registered, the same context is refused by a second register,
   * under the same owner or another one and through any interface it
   * implements; the registry is left as it was.
   */
  lemma RegisterTwiceRejected(s: Registry, owner: Id, other: Id, c: Instance, iface: Iface, iface2: Iface)
    requires Register(s, owner, c, iface).out.Ok?
    requires IsContextInterface(iface2) && Implements(c, iface2)
    ensures var n := Register(s, owner, c, iface).next;
      Register(n, other, c, iface2) == Step(Err(AlreadyRegistered), n)
  {
    RegisterEffect(s, owner, c, iface);
  }

  /**
   * The index counts over the contexts of every owner the requester may see,
   * in registration order: when two owners register under one hash, the
   * second owner's lookup at index 0 answers the first owner's context.
   */
  lemma LookupIndexAcrossOwners(s: Registry, o1: Id, o2: Id, c1: Instance, c2: Instance, iface: Iface)
    requires IsContextInterface(iface) && Implements(c1, iface) && Implements(c2, iface)
    requires c1.id != c2.id && !IsRegistered(s.table, c1) && !IsRegistered(s.table, c2)
    requires Bucket(s.table, iface.hash) == []
    requires s.computer.Some? && forall a, b :: s.computer.value(a, b)
    ensures var n1 := Register(s, o1, c1, iface);
      var n2 := Register(n1.next, o2, c2, iface);
      && Lookup(n2.next, o2, Some(iface), 0) == Ok(Some(c1))
      && Lookup(n2.next, o2, Some(iface), 1) == Ok(Some(c2))
  {
    var n1 := Register(s, o1, c1, iface);
    assert Bucket(n1.next.table, iface.hash) == [Entry(o1, c1)] && !IsRegistered(n1.next.table, c2) by {
      RegisterEffect(s, o1, c1, iface);
    }
    var n2 := Register(n1.next, o2, c2, iface);
    assert Bucket(n2.next.table, iface.hash) == [Entry(o1, c1)] + [Entry(o2, c2)] by {
      RegisterEffect(n1.next, o2, c2, iface);
    }
    LookupAllPermitted(n2.next, o2, iface, 0);
    LookupAllPermitted(n2.next, o2, iface, 1);
  }

  /**
   * Two distinct contexts registered by one owner under two different
   * interfaces that share a hash (two empty sub-interfaces of the same
   * parent) are both accepted, and both join the same group, in order.
   */
  lemma DistinctContextsUnderEqualInterfaces(s: Registry, owner: Id, c1: Instance, c2: Instance, i1: Iface, i2: Iface)
    requires IsContextInterface(i1) && IsContextInterface(i2) && i1.name != i2.name && i1.hash == i2.hash
    requires Implements(c1, i1) && Implements(c2, i2) && c1.id != c2.id
    requires !IsRegistered(s.table, c1) && !IsRegistered(s.table, c2)
    ensures var n1 := Register(s, owner, c1, i1);
      var n2 := Register(n1.next, owner, c2, i2);
      && n1.out == Ok(()) && n2.out == Ok(())
      && Group(n2.next.table, owner, i1.hash) == Group(s.table, owner, i1.hash) + [c1, c2]
  {
    var h, g := i1.hash, Group(s.table, owner, i1.hash);
    var n1 := Register(s, owner, c1, i1);
    assert !IsRegistered(n1.next.table, c2) && Group(n1.next.table, owner, h) == g + [c1] by {
      RegisterEffect(s, owner, c1, i1);
    }
    var n2 := Register(n1.next, owner, c2, i2);
    assert Group(n2.next.table, owner, h) == g + [c1] + [c2] by {
      RegisterEffect(n1.next, owner, c2, i2);
    }
    AppendPair(g, c1, c2);
  }

  /**
   * unregister through an interface of another hash, under which the owner
   * registered nothing, answers false and changes nothing: the context
   * registered earlier is still found and its own unregister answers true.
   */
  lemma UnregisterUnrelatedKeepsRegistration(
    s: Registry, owner: Id, c: Instance, iface: Iface, other: Iface, requester: Id)
    requires IsContextInterface(iface) && Implements(c, iface) && !IsRegistered(s.table, c)
    requires Bucket(s.table, iface.hash) == []
    requires s.computer.Some? && Permits(s.adminId, s.computer.value, requester, owner)
    requires IsContextInterface(other) && other.hash != iface.hash && Group(s.table, owner, other.hash) == []
    ensures var n := Register(s, owner, c, iface).next;
      && Lookup(n, requester, Some(iface), 0) == Ok(Some(c))
      && Unregister(n, owner, other) == Step(Ok(false), n)
      && Unregister(n, owner, iface).out == Ok(true)
  {
    RegisterThenLookup(s, owner, c, iface, requester);
  }

  /**
   * setComputer(password, None) with the right password answers true, and
   * from then on every lookup through a valid interface finds nothing, even
   * for a context registered afterwards.
   */
  lemma NoComputerHidesEverything(s: Registry, owner: Id, c: Instance, iface: Iface, requester: Id, index: int)
    requires IsContextInterface(iface)
    ensures var n := SetComputer(s, s.password, None);
      && n.out == Ok(true)
      && Lookup(n.next, requester, Some(iface), index) == Ok(None)
      && Lookup(Register(n.next, owner, c, iface).next, requester, Some(iface), index) == Ok(None)
  {
  }

  /**
   * With an oracle that connects nobody, a context registered by owner is
   * found by the administrator's id and by no other requester.
   */
  lemma AdminBypassesOracle(s: Registry, owner: Id, c: Instance, iface: Iface, requester: Id)
    requires s.computer.Some? && forall a, b :: !s.computer.value(a, b)
    requires IsContextInterface(iface) && Implements(c, iface) && !IsRegistered(s.table, c)
    requires Bucket(s.table, iface.hash) == []
    ensures var n := Register(s, owner, c, iface).next;
      && Lookup(n, s.adminId, Some(iface), 0) == Ok(Some(c))
      && (requester != s.adminId ==> Lookup(n, requester, Some(iface), 0) == Ok(None))
  {
    var n := Register(s, owner, c, iface).next;
    assert Bucket(n.table, iface.hash) == [Entry(owner, c)];
    AdminSeesAll(n, iface, 0);
    SeenAppend([], Entry(owner, c), s.adminId, s.computer.value, requester);
  }

  /**
   * clearAll with the right password leaves a registry in which no lookup
   * finds anything and no unregister finds a group; with a wrong password
   * nothing changes.
   */
  lemma ClearAllForgetsEverything(s: Registry, password: string, owner: Id, iface: Iface, requester: Id, index: int)
    requires IsContextInterface(iface)
    ensures var n := ClearAll(s, password);
      && (password == s.password ==> Lookup(n.next, requester, Some(iface), index) == Ok(None))
      && (password == s.password ==> Unregister(n.next, owner, iface) == Step(Ok(false), n.next))
      && (password != s.password ==> n == Step(Err(InvalidPassword), s))
  {
  }
}
