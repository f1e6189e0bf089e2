/**
 * The registry's table: for every hash, the contexts registered under it in
 * registration order, each tagged with its owner. The group of one owner
 * under one hash is the sub-sequence of that owner's entries.
 */
module Groups {
  import opened Contexts

  type Table = map<Hash, seq<Entry>>

  function Bucket(t: Table, h: Hash): seq<Entry> {
    if h in t then t[h] else []
  }

  /** The identities of the contexts in s. */
  function Ids(s: seq<Entry>): set<nat> {
    set e | e in s :: e.context.id
  }

  /** No context appears twice in s. */
  predicate Distinct(s: seq<Entry>) {
    forall i, j :: 0 <= i < j < |s| ==> s[i].context.id != s[j].context.id
  }

  /**
   * A context is registered at most once in the whole table: no identity
   * repeats inside one hash, and no identity is shared by two hashes.
   */
  ghost predicate Unique(t: Table) {
    && (forall h :: h in t ==> Distinct(t[h]))
    && (forall h1, h2 :: h1 in t && h2 in t && h1 != h2 ==> Ids(t[h1]) !! Ids(t[h2]))
  }

  /** The identities of every context registered under any owner and hash. */
  function RegisteredIds(t: Table): set<nat> {
    set h, e | h in t && e in t[h] :: e.context.id
  }

  predicate IsRegistered(t: Table, c: Instance) {
    c.id in RegisteredIds(t)
  }

  /** The contexts `owner` registered in s, in registration order. */
  function Owned(s: seq<Entry>, owner: Id): (r: seq<Instance>)
    ensures |r| <= |s|
    ensures forall c :: c in r <==> Entry(owner, c) in s
  {
    if s == [] then []
    else
      var init, last := s[..|s| - 1], s[|s| - 1];
      assert s == init + [last];
      var r0 := Owned(init, owner);
      if last.owner == owner then r0 + [last.context] else r0
  }

  /** The group of `owner` under hash h. */
  function Group(t: Table, owner: Id, h: Hash): seq<Instance> {
    Owned(Bucket(t, h), owner)
  }

  /** s without the entries of `owner`, the others kept in order. */
  function Dropped(s: seq<Entry>, owner: Id): (r: seq<Entry>)
    ensures |r| <= |s|
    ensures forall e :: e in r <==> e in s && e.owner != owner
  {
    if s == [] then []
    else
      var init, last := s[..|s| - 1], s[|s| - 1];
      assert s == init + [last];
      var r0 := Dropped(init, owner);
      if last.owner == owner then r0 else r0 + [last]
  }

  /** The contexts of s that `requester` may see, in registration order. */
  function Seen(s: seq<Entry>, admin: Id, conn: Connections, requester: Id): (r: seq<Instance>)
    ensures |r| <= |s|
    ensures forall c :: c in r ==>
      exists e :: e in s && e.context == c && Permits(admin, conn, requester, e.owner)
  {
    if s == [] then []
    else
      var init, last := s[..|s| - 1], s[|s| - 1];
      assert s == init + [last];
      var r0 := Seen(init, admin, conn, requester);
      if Permits(admin, conn, requester, last.owner) then r0 + [last.context] else r0
  }

  /** The table after `e` is appended to the contexts registered under h. */
  function Appended(t: Table, h: Hash, e: Entry): Table {
    t[h := Bucket(t, h) + [e]]
  }

  /**
   * Appending e under h extends the group of e's owner under h by e's
   * context, leaves every other group and the entries under every other
   * hash, registers e's context and, when that
   * context was not registered before, keeps every context registered once.
   */
  lemma AppendedFacts(t: Table, h: Hash, e: Entry)
    ensures var r := Appended(t, h, e);
      && (forall o, h' {:trigger Group(r, o, h')} ::
           Group(r, o, h') == if o == e.owner && h' == h then Group(t, o, h') + [e.context] else Group(t, o, h'))
      && (forall h' :: Bucket(r, h') == if h' == h then Bucket(t, h) + [e] else Bucket(t, h'))
      && RegisteredIds(r) == RegisteredIds(t) + {e.context.id}
      && (Unique(t) && !IsRegistered(t, e.context) ==> Unique(r))
  {
    OwnedAppend(Bucket(t, h), e);
    UniqueAppend(t, h, e);
    RegisteredAppend(t, h, e);
  }

  /** The table after the whole group of `owner` under h is removed. */
  function Removed(t: Table, owner: Id, h: Hash): Table {
    if h in t then t[h := Dropped(t[h], owner)] else t
  }

  /**
   * Removing the group of owner under h empties that group, keeps the other
   * owners' entries under h in order, leaves every other hash alone and
   * registers nothing new.
   */
  lemma RemovedFacts(t: Table, owner: Id, h: Hash)
    ensures var r := Removed(t, owner, h);
      && (forall o, h' {:trigger Group(r, o, h')} ::
           Group(r, o, h') == if o == owner && h' == h then [] else Group(t, o, h'))
      && (forall h' :: Bucket(r, h') == if h' == h then Dropped(Bucket(t, h), owner) else Bucket(t, h'))
      && RegisteredIds(r) <= RegisteredIds(t)
      && (Unique(t) ==> Unique(r))
  {
    OwnedDropped(Bucket(t, h), owner);
    if h in t {
      UniqueDrop(t, h, owner);
    }
  }

  lemma OwnedAppend(s: seq<Entry>, e: Entry)
    ensures forall o :: Owned(s + [e], o) == Owned(s, o) + (if e.owner == o then [e.context] else [])
  {
    assert (s + [e])[..|s|] == s;
  }

  lemma OwnedNonEmpty(s: seq<Entry>, owner: Id)
    ensures Owned(s, owner) != [] <==> exists c :: Entry(owner, c) in s
  {
    var g := Owned(s, owner);
    if g != [] {
      assert g[0] in g;
    }
  }

  /** Dropping an owner with nothing in s changes nothing. */
  lemma DroppedNoOwner(s: seq<Entry>, owner: Id)
    requires Owned(s, owner) == []
    ensures Dropped(s, owner) == s
  {
  }

  lemma SeenAppend(s: seq<Entry>, e: Entry, admin: Id, conn: Connections, requester: Id)
    ensures Seen(s + [e], admin, conn, requester)
         == Seen(s, admin, conn, requester)
            + (if Permits(admin, conn, requester, e.owner) then [e.context] else [])
  {
    assert (s + [e])[..|s|] == s;
  }

  /** Seen over a prefix of s is a prefix of Seen over s. */
  lemma {:induction false} SeenPrefix(s: seq<Entry>, k: nat, admin: Id, conn: Connections, requester: Id)
    requires k <= |s|
    ensures Seen(s[..k], admin, conn, requester) <= Seen(s, admin, conn, requester)
  {
    if k < |s| {
      var init := s[..|s| - 1];
      assert init[..k] == s[..k];
      SeenPrefix(init, k, admin, conn, requester);
      var a, b := Seen(s[..k], admin, conn, requester), Seen(init, admin, conn, requester);
      var c := Seen(s, admin, conn, requester);
      assert b <= c;
      assert a == b[..|a|] && b == c[..|b|];
      assert a == c[..|a|];
    } else {
      assert s[..k] == s;
    }
  }

  /** Dropping the entries of `owner` empties its group and leaves every other owner's. */
  lemma {:induction false} OwnedDropped(s: seq<Entry>, owner: Id)
    ensures forall o :: Owned(Dropped(s, owner), o) == if o == owner then [] else Owned(s, o)
  {
    if s != [] {
      var init, last := s[..|s| - 1], s[|s| - 1];
      OwnedDropped(init, owner);
      if last.owner != owner {
        OwnedAppend(Dropped(init, owner), last);
      }
    }
  }

  lemma {:induction false} DroppedDistinct(s: seq<Entry>, owner: Id)
    requires Distinct(s)
    ensures Distinct(Dropped(s, owner))
  {
    if s != [] {
      var init, last := s[..|s| - 1], s[|s| - 1];
      DroppedDistinct(init, owner);
      if last.owner != owner {
        var d := Dropped(init, owner);
        forall i | 0 <= i < |d| ensures d[i].context.id != last.context.id {
          assert d[i] in init;
          var k :| 0 <= k < |init| && init[k] == d[i];
          assert s[k] == d[i];
        }
        assert Dropped(s, owner) == d + [last];
      }
    }
  }

  lemma RegisteredAppend(t: Table, h: Hash, e: Entry)
    ensures RegisteredIds(Appended(t, h, e)) == RegisteredIds(t) + {e.context.id}
  {
    var r := Appended(t, h, e);
    forall id | id in RegisteredIds(r) ensures id in RegisteredIds(t) + {e.context.id} {
      var h': Hash, x: Entry :| h' in r && x in r[h'] && x.context.id == id;
      if h' != h || x != e {
        assert h' in t && x in t[h'];
      }
    }
    forall id | id in RegisteredIds(t) ensures id in RegisteredIds(r) {
      var h': Hash, x: Entry :| h' in t && x in t[h'] && x.context.id == id;
      assert x in r[h'];
    }
    assert e in r[h];
  }

  lemma UniqueAppend(t: Table, h: Hash, e: Entry)
    ensures Unique(t) && !IsRegistered(t, e.context) ==> Unique(Appended(t, h, e))
  {
    if !Unique(t) || IsRegistered(t, e.context) { return; }
    var b := Bucket(t, h);
    var r := Appended(t, h, e);
    assert Ids(r[h]) == Ids(b) + {e.context.id};
    assert e.context.id !in Ids(b);
    forall i | 0 <= i < |b| ensures b[i].context.id != e.context.id {
      assert b[i] in b;
    }
    assert Distinct(b + [e]);
  }

  lemma UniqueDrop(t: Table, h: Hash, owner: Id)
    requires h in t
    ensures Unique(t) ==> Unique(t[h := Dropped(t[h], owner)])
  {
    if !Unique(t) { return; }
    DroppedDistinct(t[h], owner);
    assert Ids(Dropped(t[h], owner)) <= Ids(t[h]);
  }
}
