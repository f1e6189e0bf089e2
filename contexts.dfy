/**
 * The values the context registry works with: plugin identities, context
 * interfaces (as descriptors), context instances, registration entries, the
 * connection oracle and the registry's error outcomes.
 */
module Contexts {

  /** A plugin identity (a Java `long`); ids are opaque, only compared for equality. */
  type Id = int

  /** The fingerprint of a context interface, computed from its methods. */
  type Hash = string

  /**
   * A context interface as the registry sees it: its name, whether it is an
   * interface at all (and not a concrete class), whether it carries the
   * `@ContextType` annotation and its hash. An interface that extends
   * another without adding methods has its parent's hash.
   */
  datatype Iface = Iface(
    name: string,
    isInterface: bool,
    annotated: bool,
    hash: Hash)

  /**
   * A context object: its identity and the names of every interface its
   * runtime class can be assigned to.
   */
  datatype Instance = Instance(id: nat, implements: set<string>)

  /** One registered context together with the plugin that registered it. */
  datatype Entry = Entry(owner: Id, context: Instance)

  /** The connection oracle: may the first plugin see the second's contexts? */
  type Connections = (Id, Id) -> bool

  /** The exceptions the registry throws. */
  datatype Error = InvalidContext | AlreadyRegistered | InvalidPassword

  datatype Option<T> = None | Some(value: T)

  datatype Result<T> = Ok(value: T) | Err(error: Error)

  /** Only an annotated interface may be used to register or look up a context. */
  predicate IsContextInterface(i: Iface) {
    i.isInterface && i.annotated
  }

  /**
   * Whether c's runtime class can be assigned to i. Interfaces are compared
   * by name, which assumes (as Java class names do) that one name denotes
   * one descriptor.
   */
  predicate Implements(c: Instance, i: Iface) {
    i.name in c.implements
  }

  /**
   * Whether `requester` may see a context that `owner` registered: the
   * administrator's id sees everything, anyone else as the oracle says.
   */
  predicate Permits(admin: Id, conn: Connections, requester: Id, owner: Id) {
    requester == admin || conn(requester, owner)
  }
}
