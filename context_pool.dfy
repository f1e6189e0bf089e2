/**
 * The registry object that plugins share. Every method changes (or reads)
 * the fields exactly as the matching function of PoolSpec says, and keeps
 * the invariant that no context is registered twice.
 */
module Pool {
  import opened Contexts
  import opened Groups
  import PoolSpec

  class ContextPool {
    const password: string
    /** The plugin id the administrator uses: the hash of the password. */
    const adminId: Id
    /** For every hash, the registered contexts with their owners, oldest first. */
    var table: Table
    /** The connection oracle, or None when no computer is installed. */
    var computer: Option<Connections>

    ghost function Model(): PoolSpec.Registry
      reads this
    {
      PoolSpec.Registry(password, adminId, table, computer)
    }

    ghost predicate Valid()
      reads this
    {
      PoolSpec.Valid(Model())
    }

    constructor (password: string, adminId: Id)
      ensures Valid()
      ensures Model() == PoolSpec.Initial(password, adminId)
    {
      this.password := password;
      this.adminId := adminId;
      table := map[];
      computer := None;
    }

    method Register(owner: Id, c: Instance, iface: Iface) returns (r: Result<()>)
      requires Valid()
      modifies this
      ensures Valid()
      ensures PoolSpec.Step(r, Model()) == PoolSpec.Register(old(Model()), owner, c, iface)
    {
      if !IsContextInterface(iface) || !Implements(c, iface) {
        return Err(InvalidContext);
      }
      if IsRegistered(table, c) {
        return Err(AlreadyRegistered);
      }
      PoolSpec.RegisterKeepsValid(Model(), owner, c, iface);
      table := Appended(table, iface.hash, Entry(owner, c));
      r := Ok(());
    }

    /** Walks the contexts of the interface's hash, keeping every one not owned by owner. */
    method Unregister(owner: Id, iface: Iface) returns (r: Result<bool>)
      requires Valid()
      modifies this
      ensures Valid()
      ensures PoolSpec.Step(r, Model()) == PoolSpec.Unregister(old(Model()), owner, iface)
    {
      if !IsContextInterface(iface) {
        return Err(InvalidContext);
      }
      var bucket := Bucket(table, iface.hash);
      var kept: seq<Entry> := [];
      var found := false;
      var i := 0;
      while i < |bucket|
        invariant 0 <= i <= |bucket|
        invariant kept == Dropped(bucket[..i], owner)
        invariant found <==> Owned(bucket[..i], owner) != []
        invariant table == old(table) && computer == old(computer)
      {
        assert bucket[..i + 1] == bucket[..i] + [bucket[i]];
        OwnedAppend(bucket[..i], bucket[i]);
        if bucket[i].owner == owner {
          found := true;
        } else {
          kept := kept + [bucket[i]];
        }
        i := i + 1;
      }
      assert bucket[..i] == bucket;
      PoolSpec.UnregisterKeepsValid(Model(), owner, iface);
      if found {
        assert iface.hash in table;
        assert table[iface.hash := kept] == Removed(table, owner, iface.hash);
        table := table[iface.hash := kept];
      }
      r := Ok(found);
    }

    /**
     * getContext(requester, iface, index): walks the contexts of the
     * interface's hash, counting those the requester may see, and answers
     * the index-th of them.
     */
    method GetContext(requester: Id, iface: Option<Iface>, index: int) returns (r: Result<Option<Instance>>)
      ensures r == PoolSpec.Lookup(Model(), requester, iface, index)
    {
      if iface.None? || !IsContextInterface(iface.value) {
        return Err(InvalidContext);
      }
      if computer.None? {
        return Ok(None);
      }
      var conn := computer.value;
      var bucket := Bucket(table, iface.value.hash);
      var count := 0;
      var i := 0;
      while i < |bucket|
        invariant 0 <= i <= |bucket|
        invariant count == |Seen(bucket[..i], adminId, conn, requester)|
        invariant index < 0 || count <= index
      {
        var e := bucket[i];
        assert bucket[..i + 1] == bucket[..i] + [e];
        SeenAppend(bucket[..i], e, adminId, conn, requester);
        if Permits(adminId, conn, requester, e.owner) {
          if count == index {
            SeenPrefix(bucket, i + 1, adminId, conn, requester);
            return Ok(Some(e.context));
          }
          count := count + 1;
        }
        i := i + 1;
      }
      assert bucket[..i] == bucket;
      r := Ok(None);
    }

    method SetComputer(password: string, computer: Option<Connections>) returns (r: Result<bool>)
      requires Valid()
      modifies this
      ensures Valid()
      ensures PoolSpec.Step(r, Model()) == PoolSpec.SetComputer(old(Model()), password, computer)
    {
      if password != this.password {
        return Err(InvalidPassword);
      }
      this.computer := computer;
      r := Ok(true);
    }

    method ClearAll(password: string) returns (r: Result<()>)
      requires Valid()
      modifies this
      ensures Valid()
      ensures PoolSpec.Step(r, Model()) == PoolSpec.ClearAll(old(Model()), password)
    {
      if password != this.password {
        return Err(InvalidPassword);
      }
      table := map[];
      computer := None;
      r := Ok(());
    }
  }
}
