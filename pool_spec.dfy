/**
 * The context registry as a state machine: its state and, for every
 * operation, what the operation answers and what state it leaves.
 */
module PoolSpec {
  import opened Contexts
  import opened Groups

  /**
   * The registry: the administrative password and the plugin id derived from
   * it (both fixed when the registry is created), the registered contexts and
   * the connection oracle ("computer"), absent until one is installed.
   */
  datatype Registry = Registry(
    password: string,
    adminId: Id,
    table: Table,
    computer: Option<Connections>)

  /** What an operation answers, and the registry it leaves behind. */
  datatype Step<T> = Step(out: Result<T>, next: Registry)

  ghost predicate Valid(s: Registry) {
    Unique(s.table)
  }

  function Initial(password: string, adminId: Id): (r: Registry)
    ensures Valid(r)
    ensures forall o, h :: Group(r.table, o, h) == []
    ensures r.computer.None?
  {
    Registry(password, adminId, map[], None)
  }

  /**
   * register(owner, c, iface): the interface must be an annotated interface
   * that c implements, and c must not be registered yet under any owner;
   * then c is appended to the group of owner under the interface's hash.
   */
  function Register(s: Registry, owner: Id, c: Instance, iface: Iface): (r: Step<()>)
    ensures r.out == Err(InvalidContext) <==> !IsContextInterface(iface) || !Implements(c, iface)
    ensures r.out == Err(AlreadyRegistered)
        <==> IsContextInterface(iface) && Implements(c, iface) && IsRegistered(s.table, c)
    ensures r.out.Ok? <==> IsContextInterface(iface) && Implements(c, iface) && !IsRegistered(s.table, c)
    ensures r.out.Err? ==> r.next == s
    ensures r.next.computer == s.computer
    ensures r.next.password == s.password && r.next.adminId == s.adminId
  {
    if !IsContextInterface(iface) || !Implements(c, iface) then Step(Err(InvalidContext), s)
    else if IsRegistered(s.table, c) then Step(Err(AlreadyRegistered), s)
    else Step(Ok(()), s.(table := Appended(s.table, iface.hash, Entry(owner, c))))
  }

  /**
   * What a successful register does to the table: c joins the end of the
   * group of owner under the interface's hash (and the end of the contexts
   * registered under that hash), every other group and the entries under
   * every other hash stay as they were, and c becomes registered.
   */
  lemma RegisterEffect(s: Registry, owner: Id, c: Instance, iface: Iface)
    requires Register(s, owner, c, iface).out.Ok?
    ensures var t := Register(s, owner, c, iface).next.table;
      && (forall o, h {:trigger Group(t, o, h)} ::
           Group(t, o, h) == if o == owner && h == iface.hash then Group(s.table, o, h) + [c] else Group(s.table, o, h))
      && (forall h :: Bucket(t, h) == if h == iface.hash then Bucket(s.table, h) + [Entry(owner, c)] else Bucket(s.table, h))
      && RegisteredIds(t) == RegisteredIds(s.table) + {c.id}
  {
    AppendedFacts(s.table, iface.hash, Entry(owner, c));
  }

  /** register never leaves a context registered twice: it checks first. */
  lemma RegisterKeepsValid(s: Registry, owner: Id, c: Instance, iface: Iface)
    requires Valid(s)
    ensures Valid(Register(s, owner, c, iface).next)
  {
    if Register(s, owner, c, iface).out.Ok? {
      AppendedFacts(s.table, iface.hash, Entry(owner, c));
    }
  }

  /**
   * unregister(owner, iface): removes the whole group of owner under the
   * interface's hash and answers whether there was anything to remove.
   */
  function Unregister(s: Registry, owner: Id, iface: Iface): (r: Step<bool>)
    ensures r.out == Err(InvalidContext) <==> !IsContextInterface(iface)
    ensures IsContextInterface(iface) ==> r.out.Ok?
    ensures IsContextInterface(iface) ==>
      (r.out == Ok(true) <==> exists c :: Entry(owner, c) in Bucket(s.table, iface.hash))
    ensures r.out != Ok(true) ==> r.next == s
    ensures r.next.computer == s.computer
    ensures r.next.password == s.password && r.next.adminId == s.adminId
  {
    if !IsContextInterface(iface) then Step(Err(InvalidContext), s)
    else
      var removed := Group(s.table, owner, iface.hash) != [];
      OwnedNonEmpty(Bucket(s.table, iface.hash), owner);
      if removed then Step(Ok(true), s.(table := Removed(s.table, owner, iface.hash)))
      else Step(Ok(false), s)
  }

  /**
   * What a successful unregister does to the table: the group of owner
   * under the interface's hash is gone, the other owners' contexts under
   * that hash keep their order, every other group and the entries under
   * every other hash stay, and no context becomes registered.
   */
  lemma UnregisterEffect(s: Registry, owner: Id, iface: Iface)
    requires Unregister(s, owner, iface).out.Ok?
    ensures var t := Unregister(s, owner, iface).next.table;
      && (forall o, h {:trigger Group(t, o, h)} ::
           Group(t, o, h) == if o == owner && h == iface.hash then [] else Group(s.table, o, h))
      && (forall h :: Bucket(t, h) == if h == iface.hash then Dropped(Bucket(s.table, h), owner) else Bucket(s.table, h))
      && RegisteredIds(t) <= RegisteredIds(s.table)
  {
    RemovedFacts(s.table, owner, iface.hash);
    OwnedDropped(Bucket(s.table, iface.hash), owner);
    if Group(s.table, owner, iface.hash) == [] {
      DroppedNoOwner(Bucket(s.table, iface.hash), owner);
    }
  }

  /** unregister only removes contexts, so none becomes registered twice. */
  lemma UnregisterKeepsValid(s: Registry, owner: Id, iface: Iface)
    requires Valid(s)
    ensures Valid(Unregister(s, owner, iface).next)
  {
    RemovedFacts(s.table, owner, iface.hash);
  }

  /**
   * getContext(requester, iface, index): the index-th context registered
   * under the interface's hash among those the requester may see. A missing
   * (null) or invalid interface is an error; without an oracle nothing is
   * visible.
   */
  function Lookup(s: Registry, requester: Id, iface: Option<Iface>, index: int): (r: Result<Option<Instance>>)
    ensures r == Err(InvalidContext) <==> iface.None? || !IsContextInterface(iface.value)
    ensures r.Err? ==> r == Err(InvalidContext)
    ensures r.Ok? && s.computer.None? ==> r.value.None?
  {
    if iface.None? || !IsContextInterface(iface.value) then Err(InvalidContext)
    else if s.computer.None? then Ok(None)
    else
      var seen := Seen(Bucket(s.table, iface.value.hash), s.adminId, s.computer.value, requester);
      if 0 <= index < |seen| then Ok(Some(seen[index])) else Ok(None)
  }

  /**
   * A lookup only ever answers a context registered under the interface's
   * hash by an owner the requester may see, and only at an index within the
   * contexts that requester may see.
   */
  lemma LookupSound(s: Registry, requester: Id, iface: Option<Iface>, index: int)
    ensures var r := Lookup(s, requester, iface, index);
      r.Ok? && r.value.Some? ==>
        && s.computer.Some?
        && exists e :: && e in Bucket(s.table, iface.value.hash)
                       && e.context == r.value.value
                       && Permits(s.adminId, s.computer.value, requester, e.owner)
    ensures var r := Lookup(s, requester, iface, index);
      r.Ok? && r.value.Some? ==>
        0 <= index < |Seen(Bucket(s.table, iface.value.hash), s.adminId, s.computer.value, requester)|
  {
    var r := Lookup(s, requester, iface, index);
    if r.Ok? && r.value.Some? {
      var seen := Seen(Bucket(s.table, iface.value.hash), s.adminId, s.computer.value, requester);
      assert seen[index] in seen;
    }
  }

  /**
   * A lookup finds every context the requester may see: the k-th context
   * registered under the hash, when visible, is answered at the index that
   * counts the visible contexts registered before it.
   */
  lemma LookupComplete(s: Registry, requester: Id, iface: Iface, k: nat)
    requires IsContextInterface(iface) && s.computer.Some?
    requires k < |Bucket(s.table, iface.hash)|
    requires Permits(s.adminId, s.computer.value, requester, Bucket(s.table, iface.hash)[k].owner)
    ensures var b := Bucket(s.table, iface.hash);
      Lookup(s, requester, Some(iface), |Seen(b[..k], s.adminId, s.computer.value, requester)|)
        == Ok(Some(b[k].context))
  {
    var b, conn := Bucket(s.table, iface.hash), s.computer.value;
    assert b[..k + 1] == b[..k] + [b[k]];
    SeenAppend(b[..k], b[k], s.adminId, conn, requester);
    SeenPrefix(b, k + 1, s.adminId, conn, requester);
  }

  /**
   * An index outside the contexts the requester may see under the hash
   * (negative, or at or past their number) answers no context.
   */
  lemma LookupPastEnd(s: Registry, requester: Id, iface: Iface, index: int)
    requires IsContextInterface(iface) && s.computer.Some?
    requires index < 0 || index >= |Seen(Bucket(s.table, iface.hash), s.adminId, s.computer.value, requester)|
    ensures Lookup(s, requester, Some(iface), index) == Ok(None)
  {
  }

  /** setComputer(password, computer): installs (or, with None, removes) the oracle. */
  function SetComputer(s: Registry, password: string, computer: Option<Connections>): (r: Step<bool>)
    ensures r.out == Ok(true) <==> password == s.password
    ensures r.out.Err? <==> r.out == Err(InvalidPassword)
    ensures password != s.password ==> r.out.Err? && r.next == s
    ensures r.out.Ok? ==> r.next.computer == computer
    ensures r.next.table == s.table
    ensures r.next.password == s.password && r.next.adminId == s.adminId
  {
    if password != s.password then Step(Err(InvalidPassword), s)
    else Step(Ok(true), s.(computer := computer))
  }

  /** clearAll(password): forgets every registered context and the oracle. */
  function ClearAll(s: Registry, password: string): (r: Step<()>)
    ensures r.out.Ok? <==> password == s.password
    ensures r.out.Err? <==> r.out == Err(InvalidPassword)
    ensures r.out.Err? ==> r.next == s
    ensures r.out.Ok? ==> (forall o, h :: Group(r.next.table, o, h) == []) && r.next.computer.None?
    ensures r.out.Ok? ==> RegisteredIds(r.next.table) == {}
    ensures r.next.password == s.password && r.next.adminId == s.adminId
    ensures Valid(s) ==> Valid(r.next)
  {
    if password != s.password then Step(Err(InvalidPassword), s)
    else Step(Ok(()), Initial(s.password, s.adminId))
  }
}
