# emuLib context registry

emuLib's `ContextPool` is the registry through which emulator plugins publish
their *contexts* (the CPU, memory, compiler and device capability objects)
and through which other plugins fetch them. This project models the registry
as its test suite `ContextPoolTest` drives it. The implementation class is
not part of this model; the behaviour comes from that test's assertions.

- `register(owner, context, iface)` appends a context to the group of its
  owner under the interface's hash.
- `unregister(owner, iface)` removes that whole group and answers whether
  there was one.
- `getXContext(id, iface[, index])` answers the index-th visible context
  registered under the interface's hash. The default index is 0.
- `setComputer(password, computer)` installs or removes the connection
  oracle ("computer"), which decides which plugin may see which.
- `clearAll(password)` forgets everything.

Files:

- `contexts.dfy` (module `Contexts`): the values. These are interface
  descriptors (is it an interface, does it carry `@ContextType`, its hash),
  context instances (an identity plus the interfaces
  they implement), registration entries, the oracle as a relation on plugin
  ids, and the three exceptions.
- `groups.dfy` (module `Groups`): the registry's table.
  - For every hash it holds the registered entries (owner, context), oldest
    first.
  - The group of one owner under one hash, the lookup's visible sequence,
    appending and whole-group removal are all functions over that table.
  - Lemmas relate each operation to the groups.
- `pool_spec.dfy` (module `PoolSpec`): the registry as a state machine. It
  has one function per operation, returning the answer (a `Result`) and the
  next state. Lemmas give the effect of each state change and prove that the
  invariant "no context is registered twice" is preserved.
- `context_pool.dfy` (module `Pool`): the class `ContextPool`.
  - The table and the oracle are mutable fields. The password and the
    administrator's id are constants.
  - It has one method per operation. `unregister` and `getContext` walk
    the sequence with a loop.
  - Each method is proved to leave exactly the state, and give exactly the
    answer, that the matching `PoolSpec` function gives, and to keep the
    invariant.
- `pool_properties.dfy` (module `PoolProperties`): the test scenarios as
  lemmas over `PoolSpec`, one per group of assertions.

Readings of the tests on which the model rests:

- **Who the lookup's first argument is.** One could read it as the owner
  whose groups are searched. In `ContextPoolTest.java:383-398`, however, a
  context is registered under owner 0 and then fetched with the
  administrator's id. That id is the hash of the password, not the owner.
  So the model reads the first argument as the *requester*.
  - A lookup considers every context registered under the interface's hash,
    by any owner, in registration order.
  - It keeps those whose owner the requester may see: the requester is the
    administrator, or the oracle connects the requester to the owner.
  - The index counts over all visible owners' contexts together, in
    registration order. When a single owner has registered under the hash,
    as in every test, this gives the same answers as the owner reading;
    across owners it does not (owner 2's lookup at index 0 answers owner
    1's earlier context when the oracle connects them; see
    `PoolProperties.LookupIndexAcrossOwners`).
- **Matching is by hash alone.** One could also require the found instance
  to be structurally assignable to the lookup interface. In
  `ContextPoolTest.java:145-150`, however, a mock of `CPUContextStub` is
  found through `DifferentCPUContextStubWithEqualHash`, an interface the
  mock does not implement. No such check is modelled, and hence there is no
  "ambiguous" outcome for two groups whose hashes collide.
- **No oracle means nothing is visible.** The tests show this for an
  ordinary requester (`ContextPoolTest.java:319-323`, `365-370`, both with
  id 0). They never look up with the administrator's id while no oracle is
  installed; that the administrator is blocked too is a modelling decision
  (the oracle is checked before the administrator's bypass).

## Model

| member | source | states |
|---|---|---|
| PoolSpec.Initial | src/test/java/emulib/runtime/ContextPoolTest.java:103-105 | a fresh registry has every group empty, no oracle, and satisfies the no-duplicates invariant |
| PoolSpec.Register | src/test/java/emulib/runtime/ContextPoolTest.java:255-312 | InvalidContext exactly when the interface is not an annotated interface or the context does not implement it; AlreadyRegistered exactly when it is valid but the context is already registered under any owner; success otherwise; an error leaves the registry unchanged; the oracle, password and admin id never change |
| PoolSpec.RegisterEffect | src/test/java/emulib/runtime/ContextPoolTest.java:129-137 | a successful register appends the context at the end of the owner's group and of the entries under the interface's hash, leaves every other group and the entries under every other hash as they were, and adds exactly the context's id to the registered ids |
| PoolSpec.RegisterKeepsValid | src/test/java/emulib/runtime/ContextPoolTest.java:266-312 | register preserves the invariant that no context is registered twice, within one hash or across hashes |
| PoolSpec.Unregister | src/test/java/emulib/runtime/ContextPoolTest.java:314-317 | InvalidContext exactly for an invalid interface; for a valid one the answer is always a boolean, true exactly when the owner has a context under the interface's hash (false at lines 316 and 377); when it does not answer true the registry is unchanged; oracle, password and admin id never change |
| PoolSpec.UnregisterEffect | src/test/java/emulib/runtime/ContextPoolTest.java:139-141 | after a successful unregister the owner's group under the hash is empty, every other group is unchanged, the entries under the hash are the other owners' in their order, the entries under every other hash are unchanged, and no id becomes registered |
| PoolSpec.UnregisterKeepsValid | src/test/java/emulib/runtime/ContextPoolTest.java:139-141 | unregister preserves the no-duplicates invariant |
| PoolSpec.Lookup | src/test/java/emulib/runtime/ContextPoolTest.java:325-363 | InvalidContext exactly for a missing (null) or non-annotated or non-interface class, and that is its only error; without an oracle the answer is always no context |
| PoolSpec.LookupSound | src/test/java/emulib/runtime/ContextPoolTest.java:383-398 | a lookup only answers a context registered under the interface's hash by an owner the requester may see (administrator or connected by the oracle), only when an oracle is installed, and only at an index within the contexts that requester may see |
| PoolSpec.LookupComplete | src/test/java/emulib/runtime/ContextPoolTest.java:135-137 | in any state, the k-th entry under the hash, when its owner is visible to the requester, is answered at the index equal to the number of visible entries before it, so every visible context is found |
| PoolSpec.LookupPastEnd | src/test/java/emulib/runtime/ContextPoolTest.java:139-141 | in any state and for any requester, an index that is negative or at or past the number of contexts the requester may see under the hash answers no context |
| PoolSpec.SetComputer | src/test/java/emulib/runtime/ContextPoolTest.java:319-323 | true exactly with the right password, which installs the given oracle (or none); a wrong password is InvalidPassword and changes nothing; the table never changes |
| PoolSpec.ClearAll | src/test/java/emulib/runtime/ContextPoolTest.java:108-113 | succeeds exactly with the right password and then leaves every group empty, nothing registered and no oracle; a wrong password is InvalidPassword and changes nothing; the invariant is kept |
| Pool.ContextPool.constructor | src/test/java/emulib/runtime/ContextPoolTest.java:103-104 | a new pool is the initial registry for its password and admin id, and satisfies the invariant |
| Pool.ContextPool.Register | src/test/java/emulib/runtime/ContextPoolTest.java:132-133 | the answer and the new fields are those of PoolSpec.Register on the old fields; the invariant is kept |
| Pool.ContextPool.Unregister | src/test/java/emulib/runtime/ContextPoolTest.java:139-141 | the loop that filters out the owner's entries yields exactly the answer and table of PoolSpec.Unregister; the invariant is kept |
| Pool.ContextPool.GetContext | src/test/java/emulib/runtime/ContextPoolTest.java:135-137 | the loop that counts visible entries answers exactly PoolSpec.Lookup on the current fields and changes nothing |
| Pool.ContextPool.SetComputer | src/test/java/emulib/runtime/ContextPoolTest.java:105 | the answer and new fields are those of PoolSpec.SetComputer; the invariant is kept |
| Pool.ContextPool.ClearAll | src/test/java/emulib/runtime/ContextPoolTest.java:110 | the answer and new fields are those of PoolSpec.ClearAll; the invariant is kept |
| Groups.Owned | src/test/java/emulib/runtime/ContextPoolTest.java:129-137 | a group holds exactly the contexts its owner registered under the hash, and is no longer than the hash's entries |
| Groups.Dropped | src/test/java/emulib/runtime/ContextPoolTest.java:139-141 | removing an owner keeps exactly the entries of the other owners |
| Groups.Seen | src/test/java/emulib/runtime/ContextPoolTest.java:383-398 | every visible context comes from an entry whose owner the requester may see |
| Groups.AppendedFacts | src/test/java/emulib/runtime/ContextPoolTest.java:129-133 | appending an entry extends only its owner's group and only the entries under its hash, registers its context, and keeps contexts unique when the context was new |
| Groups.RemovedFacts | src/test/java/emulib/runtime/ContextPoolTest.java:139-141 | removing a group empties only that group, keeps the rest of the hash's entries in order, registers nothing new and keeps contexts unique |
| Groups.OwnedDropped | src/test/java/emulib/runtime/ContextPoolTest.java:139-141 | after dropping an owner its group is empty and every other owner's group is unchanged |
| Groups.SeenPrefix | src/test/java/emulib/runtime/ContextPoolTest.java:135-137 | what a requester sees in a prefix of the entries is a prefix of what it sees in all of them, so indices keep registration order |
| Groups.DroppedDistinct | src/test/java/emulib/runtime/ContextPoolTest.java:266-312 | removing entries never makes a context appear twice |
| PoolProperties.SeenAllPermitted | src/test/java/emulib/runtime/ContextPoolTest.java:135-137 | a requester allowed to see every entry sees all of their contexts, index by index |
| PoolProperties.LookupAllPermitted | src/test/java/emulib/runtime/ContextPoolTest.java:135-137 | for such a requester, lookup with index i answers the i-th registered context, and none past the end |
| PoolProperties.AdminSeesAll | src/test/java/emulib/runtime/ContextPoolTest.java:383-398 | with any oracle installed, the administrator's lookup answers the i-th registered context |
| PoolProperties.RegisterThenLookup | src/test/java/emulib/runtime/ContextPoolTest.java:122-126 | from a hash with no entries yet (as at the start of every test), register then lookup with the default index answers the context, and unregister then answers true |
| PoolProperties.RegisterThenFound | src/test/java/emulib/runtime/ContextPoolTest.java:122-126 | in any state, after a successful register a requester that may see the owner finds the context at the index that counts what it could already see under the hash (index 0 when the hash had no entries) |
| PoolProperties.RegisterTwiceThenIndex | src/test/java/emulib/runtime/ContextPoolTest.java:129-141 | from a hash with no entries yet, two contexts registered by one owner are found at indices 0 and 1 in registration order; one unregister answers true and afterwards the lookup answers nothing |
| PoolProperties.LookupIndexAcrossOwners | src/test/java/emulib/runtime/ContextPoolTest.java:129-137 | when two owners register one context each under one hash and the oracle connects everyone, the second owner's lookup finds the first owner's context at index 0 and its own at index 1: indices count every visible owner's contexts in registration order |
| PoolProperties.UnregisterHidesGroup | src/test/java/emulib/runtime/ContextPoolTest.java:139-141 | after unregister the owner's group is empty and no lookup, for any requester and index, answers a context of the removed group |
| PoolProperties.LookupThroughEqualHash | src/test/java/emulib/runtime/ContextPoolTest.java:145-150 | from a hash with no entries yet, a context registered under an interface is also found through any annotated interface with the same hash (such as the test's empty sub-interface), which it need not implement |
| PoolProperties.RegisterTwiceRejected | src/test/java/emulib/runtime/ContextPoolTest.java:266-312 | a second register of the same context, by the same or another owner and through any valid interface it implements, is AlreadyRegistered and leaves the registry unchanged |
| PoolProperties.DistinctContextsUnderEqualInterfaces | src/test/java/emulib/runtime/ContextPoolTest.java:229-237 | two distinct contexts registered by one owner under two different interfaces with one hash are both accepted and form one group in registration order |
| PoolProperties.UnregisterUnrelatedKeepsRegistration | src/test/java/emulib/runtime/ContextPoolTest.java:372-381 | unregister through an interface of another hash answers false and changes nothing; the earlier context is still found and its own unregister answers true |
| PoolProperties.NoComputerHidesEverything | src/test/java/emulib/runtime/ContextPoolTest.java:365-370 | after setComputer(password, none) answers true, no lookup finds anything, even for a context registered afterwards |
| PoolProperties.AdminBypassesOracle | src/test/java/emulib/runtime/ContextPoolTest.java:383-398 | from a hash with no entries yet and with an oracle that connects nobody, the administrator's id finds the context and every other requester finds nothing |
| PoolProperties.ClearAllForgetsEverything | src/test/java/emulib/runtime/ContextPoolTest.java:108-113 | after clearAll with the right password no lookup finds anything and no unregister finds a group; with a wrong password it is InvalidPassword and nothing changes |

## Left out

- The process-wide singleton (`getInstance`, `ContextPoolTest.java:116-119`): the model works on one explicit registry value or object.
- EasyMock mocks and their `replay`/`verify`: a mock is modelled as a context instance with an identity and the set of interfaces it implements.
- The four typed getters (`getCPUContext`, `getMemoryContext`, `getCompilerContext`, `getDeviceContext`) and their generics: they differ only in the Java return type, so the model has a single `GetContext`.
- How an interface's hash is computed (reflection over its methods): the hash is an abstract field of the interface descriptor. An empty sub-interface is given its parent's hash.
- `String.hashCode` of the password: the administrator's id is a constant passed to the constructor next to the password.
- Java `long` width of plugin ids: ids are unbounded integers and are only compared for equality, so the width never matters.
- Thread safety and atomicity under concurrent plugins: the model is sequential.
- The argument order of the oracle: the test oracle ignores its arguments, so the model fixes `(requester, owner)` and keeps the relation uninterpreted.
- A structural-compatibility tiebreak between interfaces with colliding hashes, and the "ambiguous" outcome it would imply: the tests show matching by hash alone (see above).
- PoolSpec.Lookup: with no oracle installed the administrator finds nothing either; the tests do not show what the registry does for the administrator in that case (see above).
- Which interfaces extend which: a descriptor carries only its hash, so `LookupThroughEqualHash` is stated for any annotated interface with the same hash, the sub-interface of the test being one of them.
- The other repository files, `LexicalAnalyzer.java`, `OpcodeColumn.java`, `AbstractDebugColumn.java`, `LoaderTest.java`, `ContextTest.java` and `IMockBadHashMemoryContext.java`, are not part of this model: they hold declarations, I/O or reflection printouts rather than registry behaviour.
- Null interfaces for `register` and `unregister`: their `iface` is an `Iface`, not an `Option<Iface>`, so the null argument the Java signatures accept is not expressed; only the lookup models a null interface, as its tests do.
- PoolSpec.Unregister: no test calls unregister with an invalid interface; InvalidContext there follows only from the `throws InvalidContextException` clause at `ContextPoolTest.java:315` and from the same validity check register and lookup make.
- Interface identity: `Implements` compares interface names, and nothing ties one name to one descriptor; two descriptors with one name and different hashes would both count as implemented. The model assumes names identify interfaces, as Java class names do.
