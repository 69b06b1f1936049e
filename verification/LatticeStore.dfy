/** The Memory Lattice of hippocampus-dag as a state machine: a content-addressed store, three
secondary indices and the set of pinned identifiers. */
module LatticeStore {
  import opened Numbers
  import opened Sequences
  import opened Wrappers

  /** uint64 */
  type Epoch = e: nat | e < U64

  datatype Cipher = Cipher(iv: string, ct: string, v: int)

  /** The fields an identifier is computed from. */
  datatype Content = Content(stack: string, epoch: Epoch, cipher: Cipher, links: seq<Cid>, kind: string)

  /** An identifier is either chosen by the caller or the symbolic digest of a content. */
  datatype Cid = Chosen(text: string) | Computed(content: Content)

  const NO_CID: Cid := Chosen("")

  datatype Record = Record(cid: Cid, content: Content, pinned: bool, pinExpiry: Epoch)

  /** `log` lists the stored identifiers in the order in which they came in. */
  datatype Store = Store(
    nodes: map<Cid, Record>,
    byEpoch: map<Epoch, seq<Cid>>,
    byStack: map<string, seq<Cid>>,
    byKind: map<string, seq<Cid>>,
    pinned: set<Cid>,
    log: seq<Cid>)

  const EMPTY_STORE := Store(map[], map[], map[], map[], {}, [])

  function Bucket<K(==)>(index: map<K, seq<Cid>>, k: K): seq<Cid> {
    if k in index then index[k] else []
  }

  function Push<K(==)>(index: map<K, seq<Cid>>, k: K, c: Cid): map<K, seq<Cid>> {
    index[k := Bucket(index, k) + [c]]
  }

  // ---------------------------------------------------------------- the operations

  function CidFor(r: Record): Cid {
    if r.cid == NO_CID then Computed(r.content) else r.cid
  }

  /** An identifier that is already there keeps its first node. */
  function Put(s: Store, r: Record): (Store, Cid) {
    var c := CidFor(r);
    if c in s.nodes then (s, c)
    else (Insert(s, r.(cid := c)), c)
  }

  function Insert(s: Store, r: Record): Store {
    Store(s.nodes[r.cid := r],
          Push(s.byEpoch, r.content.epoch, r.cid),
          Push(s.byStack, r.content.stack, r.cid),
          Push(s.byKind, r.content.kind, r.cid),
          if r.pinned then s.pinned + {r.cid} else s.pinned,
          s.log + [r.cid])
  }

  function SetPin(s: Store, c: Cid, expiry: Epoch): Store
    requires c in s.nodes
  {
    s.(nodes := s.nodes[c := s.nodes[c].(pinned := true, pinExpiry := expiry)], pinned := s.pinned + {c})
  }

  datatype PinError = NotFound | LeaseCanOnlyExtend

  function Pin(s: Store, c: Cid): (Store, Option<PinError>) {
    if c !in s.nodes then (s, Some(NotFound))
    else (SetPin(s, c, s.nodes[c].pinExpiry), None)
  }

  function Lease(s: Store, c: Cid, until: Epoch): (Store, Option<PinError>) {
    if c !in s.nodes then (s, Some(NotFound))
    else if until <= s.nodes[c].pinExpiry then (s, Some(LeaseCanOnlyExtend))
    else (SetPin(s, c, until), None)
  }

  predicate PinValid(r: Record, epoch: Epoch) {
    r.pinned && (r.pinExpiry == 0 || r.pinExpiry >= epoch)
  }

  predicate LeaseActive(s: Store, c: Cid, epoch: Epoch) {
    c in s.nodes && PinValid(s.nodes[c], epoch)
  }

  datatype Op = OpPut(record: Record) | OpPin(cid: Cid) | OpLease(cid: Cid, until: Epoch)

  function Apply(s: Store, op: Op): Store {
    match op
    case OpPut(r) => Put(s, r).0
    case OpPin(c) => Pin(s, c).0
    case OpLease(c, until) => Lease(s, c, until).0
  }

  function Run(s: Store, ops: seq<Op>): Store {
    if ops == [] then s else Apply(Run(s, ops[..|ops| - 1]), ops[|ops| - 1])
  }

  // ---------------------------------------------------------------- what the indices are

  /** The identifiers of `log` whose attribute is `k`, in order. */
  function Select<K(==)>(log: seq<Cid>, attr: map<Cid, K>, k: K): seq<Cid> {
    if log == [] then []
    else
      var c := log[|log| - 1];
      Select(log[..|log| - 1], attr, k) + (if c in attr && attr[c] == k then [c] else [])
  }

  /** Each bucket lists exactly the logged identifiers with its key, in order of insertion. */
  ghost predicate Indexes<K(!new)>(index: map<K, seq<Cid>>, log: seq<Cid>, attr: map<Cid, K>) {
    && (forall k: K :: Bucket(index, k) == Select(log, attr, k))
    && (forall k | k in index :: index[k] != [])
  }

  function EpochOf(nodes: map<Cid, Record>): map<Cid, Epoch> {
    map c | c in nodes :: nodes[c].content.epoch
  }

  function StackOf(nodes: map<Cid, Record>): map<Cid, string> {
    map c | c in nodes :: nodes[c].content.stack
  }

  function KindOf(nodes: map<Cid, Record>): map<Cid, string> {
    map c | c in nodes :: nodes[c].content.kind
  }

  /** Keys are the nodes' own identifiers, and the log lists them without repetition. */
  ghost predicate Keyed(s: Store) {
    && (forall c | c in s.nodes :: s.nodes[c].cid == c)
    && NO_CID !in s.nodes
    && NoDuplicates(s.log)
    && (forall c :: c in s.log <==> c in s.nodes)
  }

  ghost predicate Indexed(s: Store) {
    && Indexes(s.byEpoch, s.log, EpochOf(s.nodes))
    && Indexes(s.byStack, s.log, StackOf(s.nodes))
    && Indexes(s.byKind, s.log, KindOf(s.nodes))
  }

  ghost predicate PinsListed(s: Store) {
    s.pinned == set c | c in s.nodes && s.nodes[c].pinned
  }

  ghost predicate WellFormed(s: Store) {
    Keyed(s) && Indexed(s) && PinsListed(s)
  }

  // ---------------------------------------------------------------- every run keeps them

  lemma {:induction false} SelectFrame<K>(log: seq<Cid>, attr: map<Cid, K>, c: Cid, v: K, k: K)
    requires c !in log
    ensures Select(log, attr[c := v], k) == Select(log, attr, k)
  {
    if log != [] {
      SelectFrame(log[..|log| - 1], attr, c, v, k);
    }
  }

  lemma {:induction false} SelectSnoc<K>(log: seq<Cid>, attr: map<Cid, K>, c: Cid, k: K)
    ensures Select(log + [c], attr, k) == Select(log, attr, k) + (if c in attr && attr[c] == k then [c] else [])
  {
    var all := log + [c];
    assert all[..|all| - 1] == log && all[|all| - 1] == c;
  }

  lemma {:induction false} PushIndexes<K(!new)>(index: map<K, seq<Cid>>, log: seq<Cid>, attr: map<Cid, K>, c: Cid, v: K)
    requires Indexes(index, log, attr) && c !in log
    ensures Indexes(Push(index, v, c), log + [c], attr[c := v])
  {
    forall k: K
      ensures Bucket(Push(index, v, c), k) == Select(log + [c], attr[c := v], k)
    {
      SelectSnoc(log, attr[c := v], c, k);
      SelectFrame(log, attr, c, v, k);
      assert Bucket(index, k) == Select(log, attr, k);
    }
  }

  lemma {:induction false} IndexEpoch(s: Store, r: Record)
    requires Keyed(s) && Indexes(s.byEpoch, s.log, EpochOf(s.nodes)) && r.cid !in s.nodes
    ensures Indexes(Push(s.byEpoch, r.content.epoch, r.cid), s.log + [r.cid], EpochOf(s.nodes[r.cid := r]))
  {
    PushIndexes(s.byEpoch, s.log, EpochOf(s.nodes), r.cid, r.content.epoch);
    assert EpochOf(s.nodes[r.cid := r]) == EpochOf(s.nodes)[r.cid := r.content.epoch];
  }

  lemma {:induction false} IndexStack(s: Store, r: Record)
    requires Keyed(s) && Indexes(s.byStack, s.log, StackOf(s.nodes)) && r.cid !in s.nodes
    ensures Indexes(Push(s.byStack, r.content.stack, r.cid), s.log + [r.cid], StackOf(s.nodes[r.cid := r]))
  {
    PushIndexes(s.byStack, s.log, StackOf(s.nodes), r.cid, r.content.stack);
    assert StackOf(s.nodes[r.cid := r]) == StackOf(s.nodes)[r.cid := r.content.stack];
  }

  lemma {:induction false} IndexKind(s: Store, r: Record)
    requires Keyed(s) && Indexes(s.byKind, s.log, KindOf(s.nodes)) && r.cid !in s.nodes
    ensures Indexes(Push(s.byKind, r.content.kind, r.cid), s.log + [r.cid], KindOf(s.nodes[r.cid := r]))
  {
    PushIndexes(s.byKind, s.log, KindOf(s.nodes), r.cid, r.content.kind);
    assert KindOf(s.nodes[r.cid := r]) == KindOf(s.nodes)[r.cid := r.content.kind];
  }

  lemma {:induction false} InsertKeyed(s: Store, r: Record)
    requires Keyed(s) && r.cid !in s.nodes && r.cid != NO_CID
    ensures Keyed(Insert(s, r))
  {
    assert r.cid !in s.log;
  }

  lemma {:induction false} InsertPins(s: Store, r: Record)
    requires PinsListed(s) && r.cid !in s.nodes
    ensures PinsListed(Insert(s, r))
  {
  }

  lemma {:induction false} InsertWellFormed(s: Store, r: Record)
    requires WellFormed(s) && r.cid !in s.nodes && r.cid != NO_CID
    ensures WellFormed(Insert(s, r))
  {
    assert Indexed(Insert(s, r)) by {
      IndexEpoch(s, r);
      IndexStack(s, r);
      IndexKind(s, r);
    }
    assert Keyed(Insert(s, r)) by { InsertKeyed(s, r); }
    assert PinsListed(Insert(s, r)) by { InsertPins(s, r); }
  }

  lemma {:induction false} SetPinKeepsContents(s: Store, c: Cid, expiry: Epoch)
    requires c in s.nodes
    ensures var nodes := SetPin(s, c, expiry).nodes;
            EpochOf(nodes) == EpochOf(s.nodes) && StackOf(nodes) == StackOf(s.nodes) && KindOf(nodes) == KindOf(s.nodes)
  {
  }

  lemma {:induction false} SetPinPins(s: Store, c: Cid, expiry: Epoch)
    requires PinsListed(s) && c in s.nodes
    ensures PinsListed(SetPin(s, c, expiry))
  {
  }

  lemma {:induction false} SetPinKeyed(s: Store, c: Cid, expiry: Epoch)
    requires Keyed(s) && c in s.nodes
    ensures Keyed(SetPin(s, c, expiry))
  {
    assert SetPin(s, c, expiry).nodes.Keys == s.nodes.Keys;
  }

  lemma {:induction false} SetPinWellFormed(s: Store, c: Cid, expiry: Epoch)
    requires WellFormed(s) && c in s.nodes
    ensures WellFormed(SetPin(s, c, expiry))
  {
    assert Indexed(SetPin(s, c, expiry)) by { SetPinKeepsContents(s, c, expiry); }
    assert Keyed(SetPin(s, c, expiry)) by { SetPinKeyed(s, c, expiry); }
    assert PinsListed(SetPin(s, c, expiry)) by { SetPinPins(s, c, expiry); }
  }

  lemma {:induction false} ApplyWellFormed(s: Store, op: Op)
    requires WellFormed(s)
    ensures WellFormed(Apply(s, op))
  {
    match op
    case OpPut(r) =>
      var c := CidFor(r);
      if c !in s.nodes {
        InsertWellFormed(s, r.(cid := c));
      }
    case OpPin(c) =>
      if c in s.nodes {
        SetPinWellFormed(s, c, s.nodes[c].pinExpiry);
      }
    case OpLease(c, until) =>
      if c in s.nodes {
        SetPinWellFormed(s, c, until);
      }
  }

  /** MAIN: after every run from the empty store the indices and the pinned set agree with it. */
  lemma {:induction false} RunWellFormed(ops: seq<Op>)
    ensures WellFormed(Run(EMPTY_STORE, ops))
  {
    if ops != [] {
      RunWellFormed(ops[..|ops| - 1]);
      ApplyWellFormed(Run(EMPTY_STORE, ops[..|ops| - 1]), ops[|ops| - 1]);
    }
  }

  lemma {:induction false} SelectCount<K>(log: seq<Cid>, attr: map<Cid, K>, k: K, c: Cid)
    requires NoDuplicates(log) && forall d | d in log :: d in attr
    ensures multiset(Select(log, attr, k))[c] == if c in log && attr[c] == k then 1 else 0
  {
    if log != [] {
      var init, last := log[..|log| - 1], log[|log| - 1];
      NoDuplicatesInit(log, c);
      SelectCount(init, attr, k, c);
    }
  }

  /** MAIN: a stored identifier stands once in the bucket of its own epoch, stack and kind, and in
      no other bucket; an unknown one stands nowhere. */
  lemma {:induction false} IndexedExactlyOnce(s: Store, c: Cid, epoch: Epoch, stack: string, kind: string)
    requires WellFormed(s)
    ensures var known := c in s.nodes;
            && multiset(Bucket(s.byEpoch, epoch))[c] == (if known && s.nodes[c].content.epoch == epoch then 1 else 0)
            && multiset(Bucket(s.byStack, stack))[c] == (if known && s.nodes[c].content.stack == stack then 1 else 0)
            && multiset(Bucket(s.byKind, kind))[c] == (if known && s.nodes[c].content.kind == kind then 1 else 0)
  {
    SelectCount(s.log, EpochOf(s.nodes), epoch, c);
    SelectCount(s.log, StackOf(s.nodes), stack, c);
    SelectCount(s.log, KindOf(s.nodes), kind, c);
  }
}
