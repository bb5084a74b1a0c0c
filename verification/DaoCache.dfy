/**
 The client cache of chats/p2p/server/dao/dao-cache.c: two lists, three hash maps and the database
 table, kept in step.

 The hash maps are real AVL trees.  Elements are objects, because the trees point at them; the three
 handle fields of all elements are kept in one map per field, and the client records are values.
 The hash functions are parameters, and two clients may have the same hash value; a removal is
 specified for all of them, and says exactly when it leaves the cache as it should be.  The database is an abstract table whose statements may fail.
 */
module DaoCache {
  import opened AvlShape
  import opened AvlApi
  import opened HashMap
  import opened Sequences

  /** A row of the table `clients` */
  datatype Row = Row(nickname: string, host: string, port: string)

  /** `dao_t`: rows under ids that are never zero and never given out twice, nicknames unique. */
  class Dao {
    var rows: map<int, Row>
    var next: int

    ghost predicate Valid()
      reads this
    {
      && 0 < next
      && (forall id :: id in rows ==> 0 < id < next)
      && (forall a, b :: a in rows && b in rows && a != b ==> rows[a].nickname != rows[b].nickname)
    }

    constructor ()
      ensures Valid() && rows == map[]
    {
      rows, next := map[], 1;
    }

    ghost predicate Has(nickname: string)
      reads this
    {
      exists id :: id in rows && rows[id].nickname == nickname
    }

    /** `dao_add_client`: zero when the statement fails, for a fault or a nickname that is taken. */
    method Add(row: Row, fault: bool) returns (id: int)
      requires Valid()
      modifies this
      ensures Valid()
      ensures id == 0 <==> fault || old(Has(row.nickname))
      ensures id != 0 ==> id !in old(rows) && rows == old(rows)[id := row]
      ensures id == 0 ==> rows == old(rows)
    {
      if fault || exists id :: id in rows.Keys && rows[id].nickname == row.nickname {
        return 0;
      }
      id := next;
      rows := rows[id := row];
      next := next + 1;
    }

    /** `dao_remove_client_by_id`; a fault leaves the row and is not reported. */
    method RemoveById(id: int, fault: bool)
      requires Valid()
      modifies this
      ensures Valid() && rows == if fault then old(rows) else old(rows) - {id}
    {
      if !fault { rows := rows - {id}; }
    }
  }

  /** `dao_client_t` */
  datatype Client = Client(id: int, row: Row)

  /** `struct dao_cache_element`, but for its handles; these fields are written once. */
  class Element {
    const client: Client
    const id: int
    const hashNickname: int
    const hashAddr: int

    constructor (client: Client, id: int, hashNickname: int, hashAddr: int)
      ensures this.client == client && this.id == id
      ensures this.hashNickname == hashNickname && this.hashAddr == hashAddr
    {
      this.client, this.id, this.hashNickname, this.hashAddr := client, id, hashNickname, hashAddr;
    }
  }

  /** The three indexes */
  datatype Index = ById | ByNickname | ByAddr

  function Key(x: Index, e: Element): int {
    match x
    case ById => e.id
    case ByNickname => e.hashNickname
    case ByAddr => e.hashAddr
  }

  /** One handle field of every element */
  type Handles = map<Element, Node>

  /** `strncpy` into a field of `size` bytes that was cleared first */
  function Truncated(s: string, size: nat): string
    requires size > 0
  {
    if |s| < size then s else s[..size - 1]
  }

  /** What a field of `most` characters keeps of a string: all of it, or as much as it holds. */
  ghost predicate KeptIn(s: string, kept: string, most: nat) {
    if |s| <= most then kept == s else |kept| == most && kept <= s
  }

  // ---------- what the cache keeps, on values ----------

  ghost predicate KeysDiffer(x: Index, elems: seq<Element>) {
    forall i, j :: 0 <= i < j < |elems| ==> Key(x, elems[i]) != Key(x, elems[j])
  }

  /**
   A tree with these nodes holds exactly the elements of `elems` under their keys, and the handle
   that an element stores is its own node.
   */
  ghost predicate Indexed(x: Index, nodes: set<Node>, elems: seq<Element>, handles: Handles) {
    && (forall e :: e in elems ==> e in handles) && (forall e :: e in handles ==> e in elems)
    && (forall e :: e in handles ==> handles[e] in nodes && handles[e].key == Key(x, e) && handles[e].data == e)
    && (forall n :: n in nodes ==> n.data is Element && n.data as Element in handles && handles[n.data as Element] == n)
  }

  ghost predicate KeyFree(x: Index, elems: seq<Element>, key: int) {
    forall i :: 0 <= i < |elems| ==> Key(x, elems[i]) != key
  }

  /** No other element has the key of `e`. */
  ghost predicate Sole(x: Index, elems: seq<Element>, e: Element) {
    forall i :: 0 <= i < |elems| && Key(x, elems[i]) == Key(x, e) ==> elems[i] == e
  }

  /** No two live clients share a hash value. */
  ghost predicate Distinguished(elems: seq<Element>) {
    KeysDiffer(ByNickname, elems) && KeysDiffer(ByAddr, elems)
  }

  lemma DifferGrows(x: Index, elems: seq<Element>, e: Element)
    ensures KeysDiffer(x, elems + [e]) <==> KeysDiffer(x, elems) && KeyFree(x, elems, Key(x, e))
  {
    var all := elems + [e];
    assert forall i :: 0 <= i < |elems| ==> all[i] == elems[i];
    assert all[|elems|] == e;
    if KeysDiffer(x, all) {
      assert forall i, j :: 0 <= i < j < |elems| ==> Key(x, all[i]) != Key(x, all[j]);
      assert forall i :: 0 <= i < |elems| ==> Key(x, all[i]) != Key(x, all[|elems|]);
    }
  }

  lemma DifferShrinks(x: Index, elems: seq<Element>, k: nat)
    requires KeysDiffer(x, elems) && k < |elems|
    ensures KeysDiffer(x, Without(elems, k)) && Sole(x, elems, elems[k])
  {
    var rest := Without(elems, k);
    assert forall i :: 0 <= i < |rest| ==> rest[i] == elems[if i < k then i else i + 1];
  }

  lemma IndexGrows(x: Index, nodes: set<Node>, elems: seq<Element>, handles: Handles, e: Element, n: Node)
    requires Indexed(x, nodes, elems, handles) && e !in elems
    requires n.key == Key(x, e) && n.data == e
    ensures Indexed(x, nodes + {n}, elems + [e], handles[e := n])
  {
    assert forall d :: d in elems + [e] <==> d in elems || d == e;
  }

  /** The handle of an element that shares its key with no other is the only node with that key. */
  lemma HandleAlone(x: Index, nodes: set<Node>, elems: seq<Element>, handles: Handles, e: Element)
    requires Indexed(x, nodes, elems, handles) && e in elems && Sole(x, elems, e)
    ensures Alone(nodes, handles[e]) && handles[e].data == e && handles[e].key == Key(x, e)
  {
    forall m | m in nodes && m.key == Key(x, e) ensures m == handles[e] {
      var d := m.data as Element;
      var i :| 0 <= i < |elems| && elems[i] == d;
    }
  }

  lemma IndexShrinks(x: Index, nodes: set<Node>, elems: seq<Element>, handles: Handles, k: nat)
    requires Indexed(x, nodes, elems, handles) && KeysDiffer(ById, elems) && k < |elems|
    ensures Indexed(x, nodes - {handles[elems[k]]}, Without(elems, k), handles - {elems[k]})
  {
    assert elems[k] in elems;
    var rest := Without(elems, k);
    assert forall i :: 0 <= i < |elems| && i != k ==> Key(ById, elems[i]) != Key(ById, elems[k]);
    forall d ensures d in rest <==> d in elems && d != elems[k] {
      WithoutAt(elems, k, d);
    }
    assert forall i :: 0 <= i < |rest| ==> rest[i] == elems[if i < k then i else i + 1];
  }

  // ---------- the three trees ----------

  /** One value for every index */
  datatype Per<+T> = Per(id: T, nickname: T, addr: T) {
    function At(x: Index): T {
      match x
      case ById => id
      case ByNickname => nickname
      case ByAddr => addr
    }
  }

  /** The three nodes carry the keys of the element and point at it. */
  ghost predicate NodesOf(e: Element, n: Per<Node>) {
    && n.id.key == e.id && n.nickname.key == e.hashNickname && n.addr.key == e.hashAddr
    && n.id.data == e && n.nickname.data == e && n.addr.data == e
  }

  ghost function Grown(nodes: Per<set<Node>>, n: Per<Node>): Per<set<Node>> {
    Per(nodes.id + {n.id}, nodes.nickname + {n.nickname}, nodes.addr + {n.addr})
  }

  ghost function Shrunk(nodes: Per<set<Node>>, n: Per<Node>): Per<set<Node>> {
    Per(nodes.id - {n.id}, nodes.nickname - {n.nickname}, nodes.addr - {n.addr})
  }

  /** `hm_by_id`, `hm_by_nickname` and `hm_by_addr` */
  class Maps {
    const byId: Tree
    const byNickname: Tree
    const byAddr: Tree

    constructor ()
      ensures Valid() && byId.nodes == {} && byNickname.nodes == {} && byAddr.nodes == {} && Sized(0)
      ensures fresh(byId) && fresh(byNickname) && fresh(byAddr)
    {
      byId := new Tree();
      byNickname := new Tree();
      byAddr := new Tree();
    }

    function Of(x: Index): Tree {
      match x
      case ById => byId
      case ByNickname => byNickname
      case ByAddr => byAddr
    }

    ghost predicate Disjoint()
      reads byId, byNickname, byAddr
    {
      && byId != byNickname && byNickname != byAddr && byId != byAddr
      && byId.nodes !! byNickname.nodes && byNickname.nodes !! byAddr.nodes && byId.nodes !! byAddr.nodes
    }

    ghost predicate Valid()
      reads byId, byNickname, byAddr, byId.nodes, byNickname.nodes, byAddr.nodes
    {
      byId.Valid() && byNickname.Valid() && byAddr.Valid() && Disjoint()
    }

    ghost predicate Sized(n: nat)
      reads byId, byNickname, byAddr
    {
      |byId.contents| == n && |byNickname.contents| == n && |byAddr.contents| == n
    }

    /** `hash_map_insert_by_hash` on one of the maps */
    method Put(x: Index, e: Element) returns (n: Node)
      requires Valid() && |Of(x).contents| + 1 < ADDRESSABLE
      modifies Of(x), Of(x).nodes
      ensures Valid() && fresh(n) && n.key == Key(x, e) && n.data == e
      ensures Of(x).nodes == old(Of(x).nodes) + {n} && |Of(x).contents| == old(|Of(x).contents|) + 1
      ensures forall y :: y != x ==> Of(y).nodes == old(Of(y).nodes) && Of(y).contents == old(Of(y).contents)
    {
      ghost var k;
      n, k := Of(x).Add(Key(x, e), e);
    }

    /** The node that the search for a hash value meets. */
    ghost function Hit(x: Index, hash: int): Node?
      reads Of(x)
    {
      Found(Of(x).shape, hash)
    }

    /** `hash_map_remove_by_hash` on one of the maps: the node that the search meets leaves. */
    method Take(x: Index, hash: int) returns (d: object?, ghost n: Node?)
      requires Valid() && |Of(x).contents| + 1 < ADDRESSABLE
      modifies Of(x), Of(x).nodes
      ensures Valid() && n == old(Hit(x, hash))
      ensures n == null ==> d == null && Of(x).nodes == old(Of(x).nodes) && Of(x).contents == old(Of(x).contents)
      ensures n != null ==> d == n.data && Of(x).nodes == old(Of(x).nodes) - {n}
      ensures n != null ==> |Of(x).contents| == old(|Of(x).contents|) - 1
      ensures forall y :: y != x ==>
        Of(y).nodes == old(Of(y).nodes) && Of(y).contents == old(Of(y).contents) && Of(y).shape == old(Of(y).shape)
    {
      d, n := RemoveByHash(Of(x), hash);
    }

    ghost function Nodes(): Per<set<Node>>
      reads byId, byNickname, byAddr
    {
      Per(byId.nodes, byNickname.nodes, byAddr.nodes)
    }

    /** The new element goes into all three maps. */
    method PutAll(e: Element, ghost size: nat) returns (n: Per<Node>)
      requires Valid() && Sized(size) && size + 1 < ADDRESSABLE
      modifies byId, byNickname, byAddr, byId.nodes, byNickname.nodes, byAddr.nodes
      ensures Valid() && Sized(size + 1) && NodesOf(e, n) && Nodes() == Grown(old(Nodes()), n)
      ensures fresh(n.id) && fresh(n.nickname) && fresh(n.addr)
    {
      var i := Put(ById, e);
      var k := Put(ByNickname, e);
      var a := Put(ByAddr, e);
      n := Per(i, k, a);
    }

    /** Two more maps lose what they have for an element that has been taken out of the map `x`. */
    method TakeTwo(x: Index, y: Index, z: Index, e: Element, ghost n: Per<Node>, ghost size: nat)
      requires Valid() && x != y && y != z && x != z && 0 < size && size + 1 < ADDRESSABLE
      requires |Of(y).contents| == size && |Of(z).contents| == size
      requires Hit(y, Key(y, e)) == n.At(y) && Hit(z, Key(z, e)) == n.At(z)
      modifies Of(y), Of(z), Of(y).nodes, Of(z).nodes
      ensures Valid() && Of(x).nodes == old(Of(x).nodes) && Of(x).contents == old(Of(x).contents)
      ensures Of(y).nodes == old(Of(y).nodes) - {n.At(y)} && Of(z).nodes == old(Of(z).nodes) - {n.At(z)}
      ensures |Of(y).contents| == size - 1 && |Of(z).contents| == size - 1
    {
      ghost var m;
      var d;
      d, m := Take(y, Key(y, e));
      d, m := Take(z, Key(z, e));
    }

    /**
     The maps are those of `was`, but one node has left the map `x`; the searches for the keys of `e`
     in the other two meet the nodes of `n`.
     */
    ghost predicate Lacks(x: Index, e: Element, was: Per<set<Node>>, n: Per<Node>, size: nat)
      reads byId, byNickname, byAddr
    {
      && Of(x).nodes == was.At(x) - {n.At(x)} && |Of(x).contents| == size - 1
      && forall y :: y != x ==> Of(y).nodes == was.At(y) && |Of(y).contents| == size && Hit(y, Key(y, e)) == n.At(y)
    }

    /** The node that the search for the key of `e` meets leaves the first map. */
    method TakeFirst(x: Index, hash: int, ghost e: Element, ghost n: Per<Node>, ghost size: nat) returns (d: object?)
      requires Key(x, e) == hash && Valid() && Sized(size) && 0 < size && size + 1 < ADDRESSABLE
      requires forall y :: Hit(y, Key(y, e)) == n.At(y)
      modifies Of(x), Of(x).nodes
      ensures Valid() && Lacks(x, e, old(Nodes()), n, size) && d == n.At(x).data
    {
      ghost var m;
      d, m := Take(x, hash);
    }

    /** The other two maps lose a node as well. */
    method TakeRest(x: Index, e: Element, ghost was: Per<set<Node>>, ghost n: Per<Node>, ghost size: nat)
      requires Valid() && 0 < size && size + 1 < ADDRESSABLE && Lacks(x, e, was, n, size)
      modifies byId, byNickname, byAddr, byId.nodes, byNickname.nodes, byAddr.nodes
      ensures Valid() && Sized(size - 1) && Nodes() == Shrunk(was, n)
    {
      match x
      case ById => TakeTwo(ById, ByNickname, ByAddr, e, n, size);
      case ByNickname => TakeTwo(ByNickname, ById, ByAddr, e, n, size);
      case ByAddr => TakeTwo(ByAddr, ById, ByNickname, e, n, size);
    }
  }

  // ---------- the cache ----------

  /** All that the cache holds at one time, and the rows of the database. */
  datatype Picture = Picture(rows: map<int, Row>, clients: seq<Client>, elems: seq<Element>, nodes: Per<set<Node>>,
                             handles: Per<Handles>)

  /** The row that is stored for what a caller gave. */
  function Truncate(nickname: string, host: string, port: string): Row {
    Row(Truncated(nickname, 16), Truncated(host, 256), Truncated(port, 6))
  }

  /** The two hash functions: of a nickname, and of a host with a port. */
  datatype Hashes = Hashes(nickname: string -> int, addr: (string, string) -> int)

  /** The element's keys are those of its client, and the database has the client's row. */
  ghost predicate Agrees(e: Element, rows: map<int, Row>, hs: Hashes) {
    && e.id == e.client.id && e.id in rows && rows[e.id] == e.client.row
    && e.hashNickname == hs.nickname(e.client.row.nickname)
    && e.hashAddr == hs.addr(e.client.row.host, e.client.row.port)
  }

  /** The lists go in step, every element agrees with the database, and every map indexes the list. */
  ghost predicate Consistent(p: Picture, hs: Hashes) {
    && |p.clients| == |p.elems|
    && (forall i :: 0 <= i < |p.elems| ==> p.clients[i] == p.elems[i].client && Agrees(p.elems[i], p.rows, hs))
    && KeysDiffer(ById, p.elems)
    && forall x :: Indexed(x, p.nodes.At(x), p.elems, p.handles.At(x))
  }

  /** The element stores its three handles. */
  function Stored(handles: Per<Handles>, e: Element, n: Per<Node>): Per<Handles> {
    Per(handles.id[e := n.id], handles.nickname[e := n.nickname], handles.addr[e := n.addr])
  }

  /** An element enters all three maps and the list of elements. */
  ghost function Entered(p: Picture, e: Element, n: Per<Node>): Picture {
    p.(elems := p.elems + [e],
       nodes := Grown(p.nodes, n),
       handles := Stored(p.handles, e, n))
  }

  lemma EnteredIsConsistent(p: Picture, hs: Hashes, cl: Client, rows: map<int, Row>, e: Element, n: Per<Node>)
    requires Consistent(p, hs) && KeyFree(ById, p.elems, Key(ById, e))
    requires e.client == cl && Agrees(e, rows, hs) && (forall i :: i in p.rows ==> i in rows && rows[i] == p.rows[i])
    requires NodesOf(e, n)
    ensures Consistent(Entered(p.(rows := rows, clients := p.clients + [cl]), e, n), hs)
  {
    var q := Entered(p.(rows := rows, clients := p.clients + [cl]), e, n);
    DifferGrows(ById, p.elems, e);
    assert e !in p.elems;
    forall x ensures Indexed(x, q.nodes.At(x), q.elems, q.handles.At(x)) {
      assert Indexed(x, p.nodes.At(x), p.elems, p.handles.At(x));
      IndexGrows(x, p.nodes.At(x), p.elems, p.handles.At(x), e, n.At(x));
    }
  }

  /** The row of a new client and its list entry are there; the element is not. */
  ghost function Enrolled(p: Picture, id: int, row: Row): Picture {
    p.(rows := p.rows[id := row], clients := p.clients + [Client(id, row)])
  }

  lemma EnteredKeeps(p: Picture, hs: Hashes, cl: Client, e: Element, n: Per<Node>)
    requires Consistent(p, hs) && cl.id !in p.rows && NodesOf(e, n) && e.client == cl && e.id == cl.id
    requires e.hashNickname == hs.nickname(cl.row.nickname) && e.hashAddr == hs.addr(cl.row.host, cl.row.port)
    ensures Consistent(Entered(Enrolled(p, cl.id, cl.row), e, n), hs)
    ensures Distinguished(p.elems + [e]) <==>
      Distinguished(p.elems) && KeyFree(ByNickname, p.elems, e.hashNickname) && KeyFree(ByAddr, p.elems, e.hashAddr)
    ensures InStep(p) ==> InStep(Entered(Enrolled(p, cl.id, cl.row), e, n))
  {
    forall i | 0 <= i < |p.elems| ensures Key(ById, p.elems[i]) != cl.id {
      assert Agrees(p.elems[i], p.rows, hs);
    }
    DifferGrows(ByNickname, p.elems, e);
    DifferGrows(ByAddr, p.elems, e);
    EnteredIsConsistent(p, hs, cl, p.rows[cl.id := cl.row], e, n);
    if InStep(p) { EnteredInStep(p, cl, e, n); }
  }

  /** The element leaves with its handles. */
  function Freed(handles: Per<Handles>, e: Element): Per<Handles> {
    Per(handles.id - {e}, handles.nickname - {e}, handles.addr - {e})
  }

  /** The handles of a live element */
  function HandlesOf(handles: Per<Handles>, e: Element): Per<Node>
    requires e in handles.id && e in handles.nickname && e in handles.addr
  {
    Per(handles.id[e], handles.nickname[e], handles.addr[e])
  }

  /** No other live client has a hash value of this one. */
  ghost predicate Unmistakable(elems: seq<Element>, e: Element) {
    Sole(ByNickname, elems, e) && Sole(ByAddr, elems, e)
  }

  /** A node of the index `x` with the key of `e` */
  ghost predicate Bears(x: Index, p: Picture, e: Element, n: Per<Node>) {
    n.At(x) in p.nodes.At(x) && n.At(x).key == Key(x, e)
  }

  /** The element at position `k` leaves the lists, three nodes leave the maps; a faulty delete leaves the row. */
  ghost function Left(p: Picture, k: nat, fault: bool, n: Per<Node>): Picture
    requires k < |p.elems| && |p.clients| == |p.elems|
  {
    var e := p.elems[k];
    Picture(if fault then p.rows else p.rows - {e.id}, Without(p.clients, k), Without(p.elems, k),
            Shrunk(p.nodes, n), Freed(p.handles, e))
  }

  lemma Stores(p: Picture, hs: Hashes, e: Element)
    requires Consistent(p, hs) && e in p.elems
    ensures e in p.handles.id && e in p.handles.nickname && e in p.handles.addr
    ensures NodesOf(e, HandlesOf(p.handles, e))
    ensures forall x :: Bears(x, p, e, HandlesOf(p.handles, e))
  {
    assert Indexed(ById, p.nodes.At(ById), p.elems, p.handles.At(ById));
    assert Indexed(ByNickname, p.nodes.At(ByNickname), p.elems, p.handles.At(ByNickname));
    assert Indexed(ByAddr, p.nodes.At(ByAddr), p.elems, p.handles.At(ByAddr));
    forall x ensures Bears(x, p, e, HandlesOf(p.handles, e)) {
      match x case ById => case ByNickname => case ByAddr =>
    }
  }

  lemma LeftIsConsistent(p: Picture, hs: Hashes, k: nat, fault: bool)
    requires Consistent(p, hs) && k < |p.elems|
    ensures var e := p.elems[k];
      && e in p.handles.id && e in p.handles.nickname && e in p.handles.addr
      && Consistent(Left(p, k, fault, HandlesOf(p.handles, e)), hs)
  {
    var e := p.elems[k];
    Stores(p, hs, e);
    var q := Left(p, k, fault, HandlesOf(p.handles, e));
    DifferShrinks(ById, p.elems, k);
    forall x ensures Indexed(x, q.nodes.At(x), q.elems, q.handles.At(x)) {
      assert Indexed(x, p.nodes.At(x), p.elems, p.handles.At(x));
      IndexShrinks(x, p.nodes.At(x), p.elems, p.handles.At(x), k);
    }
    forall i | 0 <= i < |q.elems| ensures q.clients[i] == q.elems[i].client && Agrees(q.elems[i], q.rows, hs) {
      RestAgrees(p, hs, k, fault, i);
    }
  }

  lemma RestAgrees(p: Picture, hs: Hashes, k: nat, fault: bool, i: nat)
    requires Consistent(p, hs) && k < |p.elems| && i < |p.elems| - 1
    ensures var rows := if fault then p.rows else p.rows - {p.elems[k].id};
      && Without(p.clients, k)[i] == Without(p.elems, k)[i].client && Agrees(Without(p.elems, k)[i], rows, hs)
  {
    var j := if i < k then i else i + 1;
    assert Agrees(p.elems[j], p.rows, hs) && Key(ById, p.elems[j]) != Key(ById, p.elems[k]);
  }

  /** A node that is not the handle of the leaving element belongs to another, which is left without it. */
  lemma IndexBroken(x: Index, nodes: set<Node>, elems: seq<Element>, handles: Handles, e: Element, m: Node)
    requires Indexed(x, nodes, elems, handles) && e in elems && m in nodes && m != handles[e]
    ensures forall rest :: !Indexed(x, nodes - {m}, rest, handles - {e})
  {
    forall rest ensures !Indexed(x, nodes - {m}, rest, handles - {e}) {
      assert handles[e] in nodes - {m} && handles[e].data == e;
    }
  }

  /**
   Three nodes with the keys of the leaving element leave the maps: everything stays consistent
   exactly when those in the maps by nickname and by address point at that element.
   */
  lemma ConsistentIffOwnNodes(p: Picture, hs: Hashes, k: nat, fault: bool, n: Per<Node>)
    requires Consistent(p, hs) && k < |p.elems| && forall x :: Bears(x, p, p.elems[k], n)
    ensures Consistent(Left(p, k, fault, n), hs) <==> n.nickname.data == p.elems[k] && n.addr.data == p.elems[k]
  {
    var e := p.elems[k];
    var q := Left(p, k, fault, n);
    Stores(p, hs, e);
    LeftIsConsistent(p, hs, k, fault);
    OwnIffData(ById, p, hs, k, n);
    OwnIffData(ByNickname, p, hs, k, n);
    OwnIffData(ByAddr, p, hs, k, n);
    DifferShrinks(ById, p.elems, k);
    HandleAlone(ById, p.nodes.At(ById), p.elems, p.handles.At(ById), e);
    assert Bears(ById, p, e, n);
    if n.nickname.data == e && n.addr.data == e {
      assert n == HandlesOf(p.handles, e);
    } else {
      var x := if n.nickname.data != e then ByNickname else ByAddr;
      assert Bears(x, p, e, n) && Indexed(x, p.nodes.At(x), p.elems, p.handles.At(x));
      IndexBroken(x, p.nodes.At(x), p.elems, p.handles.At(x), e, n.At(x));
      assert !Indexed(x, q.nodes.At(x), q.elems, q.handles.At(x));
    }
  }

  lemma OwnIffData(x: Index, p: Picture, hs: Hashes, k: nat, n: Per<Node>)
    requires Consistent(p, hs) && k < |p.elems| && Bears(x, p, p.elems[k], n)
    ensures p.elems[k] in p.handles.At(x)
    ensures n.At(x) == p.handles.At(x)[p.elems[k]] <==> n.At(x).data == p.elems[k]
  {
    assert Indexed(x, p.nodes.At(x), p.elems, p.handles.At(x));
    assert p.elems[k] in p.elems;
  }

  /** Every row of the database is the row of a live client. */
  ghost predicate InStep(p: Picture) {
    forall id :: id in p.rows ==> !KeyFree(ById, p.elems, id)
  }

  lemma EnteredInStep(p: Picture, cl: Client, e: Element, n: Per<Node>)
    requires InStep(p) && e.id == cl.id
    ensures InStep(Entered(p.(rows := p.rows[cl.id := cl.row], clients := p.clients + [cl]), e, n))
  {
    var q := Entered(p.(rows := p.rows[cl.id := cl.row], clients := p.clients + [cl]), e, n);
    forall id | id in q.rows ensures !KeyFree(ById, q.elems, id) {
      if id == cl.id {
        assert Key(ById, q.elems[|p.elems|]) == id;
      } else {
        var i :| 0 <= i < |p.elems| && Key(ById, p.elems[i]) == id;
        assert q.elems[i] == p.elems[i];
      }
    }
  }

  lemma FreeAfter(x: Index, elems: seq<Element>, k: nat, key: int)
    requires KeysDiffer(x, elems) && k < |elems|
    ensures KeyFree(x, Without(elems, k), key) <==> KeyFree(x, elems, key) || key == Key(x, elems[k])
  {
    var rest := Without(elems, k);
    assert forall i :: 0 <= i < |rest| ==> rest[i] == elems[if i < k then i else i + 1];
    if i :| 0 <= i < |elems| && i != k && Key(x, elems[i]) == key {
      assert rest[if i < k then i else i - 1] == elems[i];
    }
  }

  /** Cache and database stay in step exactly when the delete does not fail. */
  lemma LeftInStep(p: Picture, hs: Hashes, k: nat, fault: bool, n: Per<Node>)
    requires Consistent(p, hs) && k < |p.elems|
    ensures InStep(Left(p, k, fault, n)) <==> InStep(p) && !fault
  {
    var q, e := Left(p, k, fault, n), p.elems[k];
    assert Agrees(e, p.rows, hs) && Key(ById, p.elems[k]) == e.id;
    forall id ensures KeyFree(ById, q.elems, id) <==> KeyFree(ById, p.elems, id) || id == e.id {
      FreeAfter(ById, p.elems, k, id);
    }
  }

  /** The element at position `k`, and its client, are where no earlier one is equal. */
  lemma FirstOfItsKind(p: Picture, hs: Hashes, k: nat)
    requires Consistent(p, hs) && k < |p.elems|
    ensures p.clients[k] == p.elems[k].client
    ensures forall i :: 0 <= i < k ==> p.elems[i] != p.elems[k] && p.clients[i] != p.clients[k]
  {
    forall i | 0 <= i < k ensures p.elems[i] != p.elems[k] && p.clients[i] != p.clients[k] {
      assert Agrees(p.elems[i], p.rows, hs) && Agrees(p.elems[k], p.rows, hs);
      assert Key(ById, p.elems[i]) != Key(ById, p.elems[k]);
    }
  }

  /** Exactly the element at position `k` has left, and the nodes `n`. */
  ghost predicate Departed(p: Picture, q: Picture, k: nat, fault: bool, n: Per<Node>) {
    && k < |p.elems| && |p.clients| == |p.elems|
    && q == Left(p, k, fault, n) && (InStep(q) <==> InStep(p) && !fault)
  }

  /** A node with a hash value leads to the live element with that key; without a node there is none. */
  lemma IndexFinds(x: Index, p: Picture, hs: Hashes, hash: int, n: Node?)
    requires Consistent(p, hs) && (n != null ==> n in p.nodes.At(x) && n.key == hash)
    requires n == null ==> forall m :: m in p.nodes.At(x) ==> m.key != hash
    ensures n == null ==> KeyFree(x, p.elems, hash)
    ensures n != null ==> n.data is Element && n.data as Element in p.elems && Key(x, n.data as Element) == hash
  {
    assert Indexed(x, p.nodes.At(x), p.elems, p.handles.At(x));
    if n == null {
      forall i | 0 <= i < |p.elems| ensures Key(x, p.elems[i]) != hash {
        assert p.elems[i] in p.elems;
      }
    }
  }

  lemma HandleListed(x: Index, p: Picture, hs: Hashes, e: Element)
    requires Consistent(p, hs) && e in p.elems
    ensures e in p.handles.At(x) && p.handles.At(x)[e] in p.nodes.At(x)
  {
    assert Indexed(x, p.nodes.At(x), p.elems, p.handles.At(x));
  }

  /**
   `r` is another live element whose key comes next after that of `e`, with no key in between; null
   when none is larger.  The key of `r` is larger unless some other element shares that of `e`.
   */
  ghost predicate ElementAfter(x: Index, elems: seq<Element>, e: Element, r: Element?) {
    if r == null then forall i :: 0 <= i < |elems| ==> Key(x, elems[i]) <= Key(x, e)
    else
      && r in elems && r != e && Key(x, e) <= Key(x, r) && (Sole(x, elems, e) ==> Key(x, e) < Key(x, r))
      && forall i :: 0 <= i < |elems| ==> Key(x, elems[i]) <= Key(x, e) || Key(x, r) <= Key(x, elems[i])
  }

  lemma IndexFollows(x: Index, p: Picture, hs: Hashes, e: Element, n: Node?)
    requires Consistent(p, hs) && e in p.elems && e in p.handles.At(x)
    requires KeyAfter(p.nodes.At(x), p.handles.At(x)[e], n)
    ensures n != null ==> n.data is Element
    ensures ElementAfter(x, p.elems, e, if n == null then null else n.data as Element)
  {
    assert Indexed(x, p.nodes.At(x), p.elems, p.handles.At(x));
    forall i | 0 <= i < |p.elems|
      ensures Key(x, p.elems[i]) <= Key(x, e) || (n != null && n.key <= Key(x, p.elems[i]))
    {
      assert p.elems[i] in p.elems && p.handles.At(x)[p.elems[i]] in p.nodes.At(x);
    }
  }

  /** The hash values of two clients differ. */
  ghost predicate HashesDiffer(a: Client, b: Client, hs: Hashes) {
    && hs.nickname(a.row.nickname) != hs.nickname(b.row.nickname)
    && hs.addr(a.row.host, a.row.port) != hs.addr(b.row.host, b.row.port)
  }

  lemma LoadStep(p: Picture, hs: Hashes, i: nat, e: Element, n: Per<Node>)
    requires i < |p.clients| && |p.elems| == i && Consistent(p.(clients := p.clients[..i]), hs) && NodesOf(e, n)
    requires forall j :: 0 <= j < i ==> p.clients[j].id != p.clients[i].id
    requires e.client == p.clients[i] && e.id == e.client.id && e.id in p.rows && p.rows[e.id] == e.client.row
    requires e.hashNickname == hs.nickname(e.client.row.nickname)
    requires e.hashAddr == hs.addr(e.client.row.host, e.client.row.port)
    ensures Consistent(Entered(p, e, n).(clients := p.clients[..i + 1]), hs)
  {
    var q := p.(clients := p.clients[..i]);
    assert q.clients + [e.client] == p.clients[..i + 1];
    forall j | 0 <= j < i ensures Key(ById, q.elems[j]) != e.id {
      assert q.clients[j] == q.elems[j].client && Agrees(q.elems[j], q.rows, hs) && q.clients[j] == p.clients[j];
    }
    EnteredIsConsistent(q, hs, e.client, p.rows, e, n);
  }

  lemma LoadEnds(p: Picture, hs: Hashes)
    requires Consistent(p, hs)
    ensures InStep(p) <==> forall id :: id in p.rows ==> exists i :: 0 <= i < |p.clients| && p.clients[i].id == id
    ensures Distinguished(p.elems) <==> forall i, j :: 0 <= i < j < |p.clients| ==> HashesDiffer(p.clients[i], p.clients[j], hs)
  {
    assert forall i :: 0 <= i < |p.elems| ==> p.clients[i] == p.elems[i].client && Agrees(p.elems[i], p.rows, hs);
    if Distinguished(p.elems) {
      forall i, j | 0 <= i < j < |p.clients| ensures HashesDiffer(p.clients[i], p.clients[j], hs) {
        assert Key(ByNickname, p.elems[i]) != Key(ByNickname, p.elems[j]) && Key(ByAddr, p.elems[i]) != Key(ByAddr, p.elems[j]);
      }
    }
    if forall i, j :: 0 <= i < j < |p.clients| ==> HashesDiffer(p.clients[i], p.clients[j], hs) {
      forall i, j | 0 <= i < j < |p.elems|
        ensures Key(ByNickname, p.elems[i]) != Key(ByNickname, p.elems[j]) && Key(ByAddr, p.elems[i]) != Key(ByAddr, p.elems[j])
      {
        assert HashesDiffer(p.clients[i], p.clients[j], hs);
      }
    }
    forall id ensures KeyFree(ById, p.elems, id) <==> forall i :: 0 <= i < |p.clients| ==> p.clients[i].id != id {
      assert forall i :: 0 <= i < |p.elems| ==> Key(ById, p.elems[i]) == p.clients[i].id by {
        forall i | 0 <= i < |p.elems| ensures Key(ById, p.elems[i]) == p.clients[i].id {
          assert Agrees(p.elems[i], p.rows, hs);
        }
      }
    }
  }

  /** After a delete that failed the database still has the nickname, so its owner cannot come back. */
  lemma FaultKeepsNickname(p: Picture, hs: Hashes, k: nat, n: Per<Node>)
    requires Consistent(p, hs) && k < |p.elems|
    ensures var q := Left(p, k, true, n);
      && (exists id :: id in q.rows && q.rows[id].nickname == p.elems[k].client.row.nickname)
      && (forall i :: 0 <= i < |q.elems| ==> q.elems[i] != p.elems[k])
  {
    var e, q := p.elems[k], Left(p, k, true, n);
    assert Agrees(e, p.rows, hs) && q.rows[e.id] == e.client.row;
    forall i | 0 <= i < |q.elems| ensures q.elems[i] != e {
      assert q.elems[i] == p.elems[if i < k then i else i + 1];
      assert Key(ById, q.elems[i]) != Key(ById, e);
    }
  }

  /** `struct dao_cache` */
  class Cache {
    const dao: Dao
    const maps: Maps
    const hs: Hashes
    var daoList: seq<Client>
    var dceList: seq<Element>
    var handles: Per<Handles>

    constructor (dao: Dao, hs: Hashes)
      requires dao.Valid()
      ensures Valid() && dceList == [] && this.dao == dao && this.hs == hs && maps.Nodes() == Per({}, {}, {})
      ensures fresh(maps.byId) && fresh(maps.byNickname) && fresh(maps.byAddr)
    {
      this.dao, this.hs := dao, hs;
      maps := new Maps();
      daoList, dceList := [], [];
      handles := Per(map[], map[], map[]);
    }

    ghost function Now(): Picture
      reads this, dao, maps.byId, maps.byNickname, maps.byAddr
    {
      Picture(dao.rows, daoList, dceList, maps.Nodes(), handles)
    }

    ghost predicate Sound()
      reads this, dao, maps.byId, maps.byNickname, maps.byAddr, maps.byId.nodes, maps.byNickname.nodes, maps.byAddr.nodes
    {
      dao.Valid() && maps.Valid() && maps.Sized(|dceList|)
    }

    ghost predicate Valid()
      reads this, dao, maps.byId, maps.byNickname, maps.byAddr, maps.byId.nodes, maps.byNickname.nodes, maps.byAddr.nodes
    {
      Sound() && Consistent(Now(), hs)
    }

    /** The body of the load loop and the second half of `dao_cache_add_client`. */
    method Enter(cl: Client) returns (e: Element, n: Per<Node>)
      requires Sound() && |dceList| + 1 < ADDRESSABLE
      modifies this, maps.byId, maps.byNickname, maps.byAddr, maps.byId.nodes, maps.byNickname.nodes, maps.byAddr.nodes
      ensures Sound() && Now() == Entered(old(Now()), e, n)
      ensures fresh(e) && e.client == cl && e.id == cl.id
      ensures e.hashNickname == hs.nickname(cl.row.nickname) && e.hashAddr == hs.addr(cl.row.host, cl.row.port)
      ensures NodesOf(e, n) && fresh(n.id) && fresh(n.nickname) && fresh(n.addr)
    {
      e := new Element(cl, cl.id, hs.nickname(cl.row.nickname), hs.addr(cl.row.host, cl.row.port));
      n := maps.PutAll(e, |dceList|);
      Note(e, n);
    }

    /** The list grows, and the element stores its handles. */
    method Note(e: Element, n: Per<Node>)
      requires dao.Valid() && maps.Valid()
      modifies this
      ensures dao.Valid() && maps.Valid() && maps.Nodes() == old(maps.Nodes())
      ensures dceList == old(dceList) + [e] && handles == Stored(old(handles), e, n) && daoList == old(daoList)
      ensures forall k :: old(maps.Sized(k)) ==> maps.Sized(k)
    {
      dceList := dceList + [e];
      handles := Stored(handles, e, n);
    }

    /** The hash values of `row` are not those of a live client. */
    ghost predicate HashesFree(row: Row)
      reads this
    {
      && KeyFree(ByNickname, dceList, hs.nickname(row.nickname))
      && KeyFree(ByAddr, dceList, hs.addr(row.host, row.port))
    }

    /** `dao_add_client` and what follows: a list entry and a row, or neither. */
    method Enrol(row: Row, fault: bool) returns (id: int)
      requires Sound()
      modifies this, dao
      ensures Sound() && (id == 0 <==> fault || old(dao.Has(row.nickname)))
      ensures id == 0 ==> Now() == old(Now())
      ensures id != 0 ==> id !in old(dao.rows) && Now() == Enrolled(old(Now()), id, row)
    {
      ghost var clients := daoList;
      daoList := daoList + [Client(0, row)];
      id := dao.Add(row, fault);
      daoList := if id == 0 then daoList[..|daoList| - 1] else daoList[|daoList| - 1 := Client(id, row)];
      assert daoList == if id == 0 then clients else clients + [Client(id, row)];
    }

    /** `dao_cache_add_client` */
    method AddClient(nickname: string, host: string, port: string, fault: bool) returns (dce: Element?)
      requires Valid() && |dceList| + 1 < ADDRESSABLE
      modifies this, dao, maps.byId, maps.byNickname, maps.byAddr
      modifies maps.byId.nodes, maps.byNickname.nodes, maps.byAddr.nodes
      ensures Valid()
      ensures dce != null ==>
        (Distinguished(dceList) <==> old(Distinguished(dceList) && HashesFree(Truncate(nickname, host, port))))
      ensures dce == null <==> fault || old(dao.Has(Truncated(nickname, 16)))
      ensures dce == null ==> Now() == old(Now())
      ensures dce != null ==> fresh(dce) && dce.client.row == Truncate(nickname, host, port)
      ensures dce != null ==> KeptIn(nickname, dce.client.row.nickname, 15) && KeptIn(host, dce.client.row.host, 255)
      ensures dce != null ==> KeptIn(port, dce.client.row.port, 5)
      ensures dce != null ==> dce.id !in old(dao.rows) && dao.rows == old(dao.rows)[dce.id := dce.client.row]
      ensures dce != null ==> dceList == old(dceList) + [dce] && daoList == old(daoList) + [dce.client]
      ensures old(InStep(Now())) ==> InStep(Now())
      ensures fresh(maps.byId.nodes - old(maps.byId.nodes))
      ensures fresh(maps.byNickname.nodes - old(maps.byNickname.nodes))
      ensures fresh(maps.byAddr.nodes - old(maps.byAddr.nodes))
    {
      ghost var p := Now();
      var row := Truncate(nickname, host, port);
      var id := Enrol(row, fault);
      if id == 0 { return null; }
      var n;
      dce, n := Enter(Client(id, row));
      EnteredKeeps(p, hs, Client(id, row), dce, n);
    }

    /** `dao_remove_client_by_id` */
    method Delete(id: int, fault: bool)
      requires dao.Valid() && maps.Valid()
      modifies dao
      ensures dao.Valid() && maps.Valid() && maps.Nodes() == old(maps.Nodes())
      ensures forall x :: maps.Of(x).contents == old(maps.Of(x).contents) && maps.Of(x).shape == old(maps.Of(x).shape)
      ensures dao.rows == if fault then old(dao.rows) else old(dao.rows) - {id}
    {
      dao.RemoveById(id, fault);
    }

    /** `list_remove_element` on both lists; the element is freed with its handles. */
    method Forget(e: Element, ghost k: nat)
      requires dao.Valid() && maps.Valid() && k < |dceList| && k < |daoList|
      requires dceList[k] == e && daoList[k] == e.client
      requires forall i :: 0 <= i < k ==> dceList[i] != e && daoList[i] != e.client
      modifies this
      ensures dao.Valid() && maps.Valid() && maps.Nodes() == old(maps.Nodes())
      ensures forall x :: maps.Of(x).contents == old(maps.Of(x).contents)
      ensures daoList == Without(old(daoList), k) && dceList == Without(old(dceList), k)
      ensures handles == Freed(old(handles), e)
    {
      DroppedAt(daoList, k);
      DroppedAt(dceList, k);
      daoList, dceList, handles := Dropped(daoList, e.client), Dropped(dceList, e), Freed(handles, e);
    }

    /** What every removal ends with: the other two maps, and both lists. */
    method Withdraw(x: Index, e: Element, ghost was: Per<set<Node>>, ghost n: Per<Node>, ghost k: nat)
      requires dao.Valid() && maps.Valid() && |dceList| + 1 < ADDRESSABLE && maps.Lacks(x, e, was, n, |dceList|)
      requires k < |dceList| && k < |daoList| && dceList[k] == e && daoList[k] == e.client
      requires forall i :: 0 <= i < k ==> dceList[i] != e && daoList[i] != e.client
      modifies this, maps.byId, maps.byNickname, maps.byAddr, maps.byId.nodes, maps.byNickname.nodes, maps.byAddr.nodes
      ensures Sound() && dao.rows == old(dao.rows) && maps.Nodes() == Shrunk(was, n)
      ensures daoList == Without(old(daoList), k) && dceList == Without(old(dceList), k)
      ensures handles == Freed(old(handles), e)
    {
      maps.TakeRest(x, e, was, n, |dceList|);
      Forget(e, k);
    }

    /** The searches for the three keys of `e` meet the nodes `n`. */
    ghost predicate Hits(e: Element, n: Per<Node>)
      reads maps.byId, maps.byNickname, maps.byAddr
    {
      && maps.Hit(ById, e.id) == n.id && maps.Hit(ByNickname, e.hashNickname) == n.nickname
      && maps.Hit(ByAddr, e.hashAddr) == n.addr
    }

    lemma HitsAt(e: Element, n: Per<Node>)
      requires Hits(e, n)
      ensures forall y :: maps.Hit(y, Key(y, e)) == n.At(y)
    {
      forall y ensures maps.Hit(y, Key(y, e)) == n.At(y) {
        match y case ById => case ByNickname => case ByAddr =>
      }
    }

    /** How removal of an element begins: its row, and the first map. */
    method Strike(dce: Element, fault: bool, ghost n: Per<Node>)
      requires Sound() && |dceList| + 1 < ADDRESSABLE && Hits(dce, n)
      modifies dao, maps.byId, maps.byId.nodes
      ensures dao.Valid() && maps.Valid() && maps.Lacks(ById, dce, old(maps.Nodes()), n, |dceList|)
      ensures dao.rows == if fault then old(dao.rows) else old(dao.rows) - {dce.id}
    {
      Delete(dce.id, fault);
      HitsAt(dce, n);
      var d := maps.TakeFirst(ById, dce.id, dce, n, |dceList|);
    }

    /** How removal by a key begins: the map of that key gives the element, then its row goes. */
    method StrikeKey(x: Index, hash: int, fault: bool, ghost n: Per<Node>, ghost e: Element) returns (dce: Element)
      requires Sound() && |dceList| + 1 < ADDRESSABLE && Hits(e, n) && Key(x, e) == hash && n.At(x).data == e
      modifies dao, maps.Of(x), maps.Of(x).nodes
      ensures dao.Valid() && maps.Valid() && maps.Lacks(x, e, old(maps.Nodes()), n, |dceList|) && dce == e
      ensures dao.rows == if fault then old(dao.rows) else old(dao.rows) - {e.id}
    {
      HitsAt(e, n);
      var d: object? := maps.TakeFirst(x, hash, e, n, |dceList|);
      dce := d as Element?;
      Delete(dce.id, fault);
    }

    /** The live element that a look-up by this hash value returns. */
    ghost function Holder(x: Index, hash: int): Element?
      reads maps.byId, maps.byNickname, maps.byAddr
    {
      var n := maps.Hit(x, hash);
      if n != null && n.data is Element then n.data as Element else null
    }

    lemma HolderLives(x: Index, hash: int)
      requires Valid()
      ensures Holder(x, hash) == null <==> KeyFree(x, dceList, hash)
      ensures Holder(x, hash) != null ==> Holder(x, hash) in dceList && Key(x, Holder(x, hash)) == hash
      ensures Holder(x, hash) != null ==> maps.Hit(x, hash) != null && maps.Hit(x, hash).data == Holder(x, hash)
    {
      FoundNode(maps.Of(x), hash);
      IndexFinds(x, Now(), hs, hash, maps.Hit(x, hash));
    }

    /** What the look-ups by the element's own hash values return is the element: a caller can try that. */
    ghost predicate FindsItself(e: Element)
      reads maps.byId, maps.byNickname, maps.byAddr
    {
      Holder(ByNickname, e.hashNickname) == e && Holder(ByAddr, e.hashAddr) == e
    }

    lemma HitsOf(k: nat) returns (n: Per<Node>)
      requires Valid() && k < |dceList|
      ensures Hits(dceList[k], n) && forall x :: Bears(x, Now(), dceList[k], n)
      ensures FindsItself(dceList[k]) <==> n.nickname.data == dceList[k] && n.addr.data == dceList[k]
      ensures forall x :: n.At(x).data == Holder(x, Key(x, dceList[k]))
    {
      var e := dceList[k];
      HolderLives(ById, e.id);
      HolderLives(ByNickname, e.hashNickname);
      HolderLives(ByAddr, e.hashAddr);
      FoundNode(maps.byId, e.id);
      FoundNode(maps.byNickname, e.hashNickname);
      FoundNode(maps.byAddr, e.hashAddr);
      assert Key(ById, e) == e.id && Key(ByNickname, e) == e.hashNickname && Key(ByAddr, e) == e.hashAddr;
      n := Per(maps.Hit(ById, e.id), maps.Hit(ByNickname, e.hashNickname), maps.Hit(ByAddr, e.hashAddr));
      forall x ensures Bears(x, Now(), e, n) && n.At(x).data == Holder(x, Key(x, e)) {
        match x case ById => case ByNickname => case ByAddr =>
      }
    }

    /** What a removal of the element at position `k` will take out, and what it will leave. */
    lemma Leaving(k: nat, fault: bool) returns (n: Per<Node>)
      requires Valid() && k < |dceList|
      ensures Hits(dceList[k], n) && k < |daoList| && daoList[k] == dceList[k].client
      ensures forall i :: 0 <= i < k ==> dceList[i] != dceList[k] && daoList[i] != daoList[k]
      ensures Departed(Now(), Left(Now(), k, fault, n), k, fault, n)
      ensures Consistent(Left(Now(), k, fault, n), hs) <==> FindsItself(dceList[k])
      ensures forall x :: n.At(x).data == Holder(x, Key(x, dceList[k]))
    {
      n := HitsOf(k);
      FirstOfItsKind(Now(), hs, k);
      ConsistentIffOwnNodes(Now(), hs, k, fault, n);
      LeftInStep(Now(), hs, k, fault, n);
    }

    /**
     `dao_cache_remove_client`: the client leaves lists, database and maps; the cache is as it should
     be afterwards exactly when the look-ups for the client's own nickname and address returned it.
     */
    method RemoveClient(dce: Element, fault: bool, ghost k: nat) returns (ghost n: Per<Node>)
      requires Valid() && |dceList| + 1 < ADDRESSABLE && k < |dceList| && dceList[k] == dce
      modifies this, dao, maps.byId, maps.byNickname, maps.byAddr
      modifies maps.byId.nodes, maps.byNickname.nodes, maps.byAddr.nodes
      ensures Sound() && Departed(old(Now()), Now(), k, fault, n)
      ensures Valid() <==> old(FindsItself(dce))
    {
      ghost var p := Now();
      n := Leaving(k, fault);
      Strike(dce, fault, n);
      Withdraw(ById, dce, p.nodes, n, k);
    }

    /** The body of the removals by key */
    method RemoveHit(x: Index, hash: int, fault: bool, ghost k: nat, ghost n: Per<Node>, ghost e: Element)
      requires Sound() && |dceList| + 1 < ADDRESSABLE && Hits(e, n) && Key(x, e) == hash && n.At(x).data == e
      requires k < |dceList| && k < |daoList| && dceList[k] == e && daoList[k] == e.client
      requires |dceList| == |daoList| && forall i :: 0 <= i < k ==> dceList[i] != e && daoList[i] != e.client
      modifies this, dao, maps.byId, maps.byNickname, maps.byAddr
      modifies maps.byId.nodes, maps.byNickname.nodes, maps.byAddr.nodes
      ensures Sound() && Now() == Left(old(Now()), k, fault, n)
    {
      ghost var was := maps.Nodes();
      var dce := StrikeKey(x, hash, fault, n, e);
      Withdraw(x, dce, was, n, k);
    }

    /**
     The removals by key: the client that leaves, and whose row goes, is the one that a look-up by the
     hash value returns.
     */
    method RemoveByKey(x: Index, hash: int, fault: bool) returns (ghost k: nat, ghost n: Per<Node>)
      requires Valid() && |dceList| + 1 < ADDRESSABLE && !KeyFree(x, dceList, hash)
      modifies this, dao, maps.byId, maps.byNickname, maps.byAddr
      modifies maps.byId.nodes, maps.byNickname.nodes, maps.byAddr.nodes
      ensures Sound() && Departed(old(Now()), Now(), k, fault, n)
      ensures old(dceList)[k] == old(Holder(x, hash)) && Key(x, old(dceList)[k]) == hash
      ensures Valid() <==> old(FindsItself(Holder(x, hash)))
    {
      HolderLives(x, hash);
      ghost var e := Holder(x, hash);
      k :| 0 <= k < |dceList| && dceList[k] == e;
      n := Leaving(k, fault);
      RemoveHit(x, hash, fault, k, n, e);
    }

    /** `dao_cache_remove_cient_by_id` */
    method RemoveClientById(id: int, fault: bool) returns (ghost k: nat, ghost n: Per<Node>)
      requires Valid() && |dceList| + 1 < ADDRESSABLE && !KeyFree(ById, dceList, id)
      modifies this, dao, maps.byId, maps.byNickname, maps.byAddr
      modifies maps.byId.nodes, maps.byNickname.nodes, maps.byAddr.nodes
      ensures Sound() && Departed(old(Now()), Now(), k, fault, n)
      ensures old(dceList)[k] == old(Holder(ById, id)) && old(dceList)[k].id == id
      ensures Valid() <==> old(FindsItself(Holder(ById, id)))
    {
      k, n := RemoveByKey(ById, id, fault);
    }

    /**
     `dao_cache_remove_client_by_nickname`: the client that a look-up by the nickname returns leaves,
     with its row, whatever its nickname is.
     */
    method RemoveClientByNickname(nickname: string, fault: bool) returns (ghost k: nat, ghost n: Per<Node>)
      requires Valid() && |dceList| + 1 < ADDRESSABLE && !KeyFree(ByNickname, dceList, hs.nickname(nickname))
      modifies this, dao, maps.byId, maps.byNickname, maps.byAddr
      modifies maps.byId.nodes, maps.byNickname.nodes, maps.byAddr.nodes
      ensures Sound() && Departed(old(Now()), Now(), k, fault, n)
      ensures old(dceList)[k] == old(Holder(ByNickname, hs.nickname(nickname)))
      ensures Valid() <==> old(FindsItself(Holder(ByNickname, hs.nickname(nickname))))
    {
      k, n := RemoveByKey(ByNickname, hs.nickname(nickname), fault);
    }

    /** `dao_cache_remove_client_by_addr`, in the same way */
    method RemoveClientByAddr(host: string, port: string, fault: bool) returns (ghost k: nat, ghost n: Per<Node>)
      requires Valid() && |dceList| + 1 < ADDRESSABLE && !KeyFree(ByAddr, dceList, hs.addr(host, port))
      modifies this, dao, maps.byId, maps.byNickname, maps.byAddr
      modifies maps.byId.nodes, maps.byNickname.nodes, maps.byAddr.nodes
      ensures Sound() && Departed(old(Now()), Now(), k, fault, n)
      ensures old(dceList)[k] == old(Holder(ByAddr, hs.addr(host, port)))
      ensures Valid() <==> old(FindsItself(Holder(ByAddr, hs.addr(host, port))))
    {
      k, n := RemoveByKey(ByAddr, hs.addr(host, port), fault);
    }

    /** A client whose hash values nobody shares finds itself. */
    lemma UnmistakableFindsItself(e: Element)
      requires Valid() && e in dceList && Unmistakable(dceList, e)
      ensures FindsItself(e)
    {
      HolderLives(ByNickname, e.hashNickname);
      HolderLives(ByAddr, e.hashAddr);
      assert Key(ByNickname, e) == e.hashNickname && Key(ByAddr, e) == e.hashAddr;
    }

    /** Every live client can be removed safely if and only if no two share a hash value. */
    lemma AllRemovableIffDistinguished()
      requires Valid()
      ensures (forall i :: 0 <= i < |dceList| ==> FindsItself(dceList[i])) <==> Distinguished(dceList)
    {
      forall i, j | 0 <= i < j < |dceList| ensures dceList[i] != dceList[j] {
        assert Key(ById, dceList[i]) != Key(ById, dceList[j]);
      }
      if Distinguished(dceList) {
        forall i | 0 <= i < |dceList| ensures FindsItself(dceList[i]) {
          DifferShrinks(ByNickname, dceList, i);
          DifferShrinks(ByAddr, dceList, i);
          UnmistakableFindsItself(dceList[i]);
        }
      }
    }

    /** A look-up by hash finds the live element with that key, if there is one. */
    method GetByKey(x: Index, hash: int) returns (dce: Element?)
      requires Valid()
      ensures dce == Holder(x, hash)
      ensures dce == null <==> KeyFree(x, dceList, hash)
      ensures dce != null ==> dce in dceList && Key(x, dce) == hash
    {
      HolderLives(x, hash);
      var n := GetByHash(maps.Of(x), hash);
      IndexFinds(x, Now(), hs, hash, n);
      if n == null { return null; }
      var d: object? := n.data;
      dce := d as Element?;
    }

    /** `dao_cache_get_client_by_id` */
    method GetClientById(id: int) returns (dce: Element?)
      requires Valid()
      ensures dce == null <==> forall i :: 0 <= i < |dceList| ==> dceList[i].id != id
      ensures dce != null ==> dce in dceList && dce.id == id
    {
      dce := GetByKey(ById, id);
    }

    /**
     `dao_cache_get_client_by_nickname`: only hashes are compared, so a live client with another
     nickname of the same hash may be returned; whoever has the nickname, and the hash alone, is found.
     */
    method GetClientByNickname(nickname: string) returns (dce: Element?)
      requires Valid()
      ensures dce == Holder(ByNickname, hs.nickname(nickname))
      ensures dce == null <==> KeyFree(ByNickname, dceList, hs.nickname(nickname))
      ensures dce == null ==> forall i :: 0 <= i < |dceList| ==> dceList[i].client.row.nickname != nickname
      ensures dce != null ==> dce in dceList && hs.nickname(dce.client.row.nickname) == hs.nickname(nickname)
      ensures forall i :: 0 <= i < |dceList| && Sole(ByNickname, dceList, dceList[i]) ==>
                dceList[i].client.row.nickname == nickname ==> dce == dceList[i]
    {
      dce := GetByKey(ByNickname, hs.nickname(nickname));
      forall i | 0 <= i < |dceList| ensures Key(ByNickname, dceList[i]) == hs.nickname(dceList[i].client.row.nickname) {
        assert Agrees(dceList[i], dao.rows, hs);
      }
    }

    /** `dao_cache_get_client_by_addr`, in the same way */
    method GetClientByAddr(host: string, port: string) returns (dce: Element?)
      requires Valid()
      ensures dce == Holder(ByAddr, hs.addr(host, port))
      ensures dce == null <==> KeyFree(ByAddr, dceList, hs.addr(host, port))
      ensures dce == null ==> forall i :: 0 <= i < |dceList| ==>
                dceList[i].client.row.host != host || dceList[i].client.row.port != port
      ensures dce != null ==> dce in dceList && hs.addr(dce.client.row.host, dce.client.row.port) == hs.addr(host, port)
      ensures forall i :: 0 <= i < |dceList| && Sole(ByAddr, dceList, dceList[i]) ==>
                dceList[i].client.row.host == host && dceList[i].client.row.port == port ==> dce == dceList[i]
    {
      dce := GetByKey(ByAddr, hs.addr(host, port));
      forall i | 0 <= i < |dceList|
        ensures Key(ByAddr, dceList[i]) == hs.addr(dceList[i].client.row.host, dceList[i].client.row.port)
      {
        assert Agrees(dceList[i], dao.rows, hs);
      }
    }

    /** `dao_cache_next_client_by_id`, `..._by_nickname` and `..._by_addr`, through the stored handle */
    method NextClient(x: Index, dce: Element?) returns (next: Element?)
      requires Valid() && (dce != null ==> dce in dceList)
      ensures dce == null ==> next == null
      ensures dce != null ==> ElementAfter(x, dceList, dce, next)
    {
      if dce == null { return null; }
      HandleListed(x, Now(), hs, dce);
      var n := NextNode(maps.Of(x), handles.At(x)[dce]);
      IndexFollows(x, Now(), hs, dce, n);
      if n == null { return null; }
      var d: object? := n.data;
      next := d as Element?;
    }

    /** `dao_list_clients` gives the list that the cache works on. */
    method SetList(clients: seq<Client>)
      requires Sound()
      modifies this
      ensures Sound() && Now() == old(Now()).(clients := clients)
    {
      daoList := clients;
    }

    /** One round of the load loop: the client at position `i` gets its element. */
    method LoadOne(i: nat)
      requires Sound() && i < |daoList| && |dceList| == i && Consistent(Now().(clients := daoList[..i]), hs)
      requires i + 1 < ADDRESSABLE && daoList[i].id in dao.rows && dao.rows[daoList[i].id] == daoList[i].row
      requires forall j :: 0 <= j < i ==> daoList[j].id != daoList[i].id
      modifies this, maps.byId, maps.byNickname, maps.byAddr, maps.byId.nodes, maps.byNickname.nodes, maps.byAddr.nodes
      ensures Sound() && daoList == old(daoList) && dao.rows == old(dao.rows) && |dceList| == i + 1
      ensures Consistent(Now().(clients := daoList[..i + 1]), hs)
      ensures fresh(maps.byId.nodes - old(maps.byId.nodes))
      ensures fresh(maps.byNickname.nodes - old(maps.byNickname.nodes))
      ensures fresh(maps.byAddr.nodes - old(maps.byAddr.nodes))
    {
      ghost var p := Now();
      var e, n := Enter(daoList[i]);
      LoadStep(p, hs, i, e, n);
    }

    /** The load loop itself */
    method LoadAll()
      requires Sound() && dceList == [] && Consistent(Now().(clients := []), hs) && |daoList| + 1 < ADDRESSABLE
      requires Loadable(daoList)
      modifies this, maps.byId, maps.byNickname, maps.byAddr, maps.byId.nodes, maps.byNickname.nodes, maps.byAddr.nodes
      ensures Valid() && daoList == old(daoList) && dao.rows == old(dao.rows)
      ensures fresh(maps.byId.nodes - old(maps.byId.nodes))
      ensures fresh(maps.byNickname.nodes - old(maps.byNickname.nodes))
      ensures fresh(maps.byAddr.nodes - old(maps.byAddr.nodes))
    {
      var i := 0;
      ghost var rows := dao.rows;
      ghost var clients := daoList;
      while i < |daoList|
        invariant i <= |daoList| && |dceList| == i && daoList == clients && dao.rows == rows
        invariant Sound() && Consistent(Now().(clients := daoList[..i]), hs)
        invariant fresh(maps.byId.nodes - old(maps.byId.nodes)) && fresh(maps.byNickname.nodes - old(maps.byNickname.nodes))
        invariant fresh(maps.byAddr.nodes - old(maps.byAddr.nodes))
        decreases |daoList| - i
      {
        LoadOne(i);
        i := i + 1;
      }
      assert daoList[..i] == daoList;
    }

    /** The database has a row for every client, each listed once. */
    ghost predicate Loadable(clients: seq<Client>)
      reads dao
    {
      && (forall i :: 0 <= i < |clients| ==> clients[i].id in dao.rows && dao.rows[clients[i].id] == clients[i].row)
      && (forall i, j :: 0 <= i < j < |clients| ==> clients[i].id != clients[j].id)
    }

    /** The load loop of `dao_cache_init`, for the clients that the database listed. */
    method Load(clients: seq<Client>)
      requires Valid() && dceList == [] && |clients| + 1 < ADDRESSABLE && Loadable(clients)
      modifies this, maps.byId, maps.byNickname, maps.byAddr, maps.byId.nodes, maps.byNickname.nodes, maps.byAddr.nodes
      ensures Valid() && daoList == clients && dao.rows == old(dao.rows)
      ensures fresh(maps.byId.nodes - old(maps.byId.nodes))
      ensures fresh(maps.byNickname.nodes - old(maps.byNickname.nodes))
      ensures fresh(maps.byAddr.nodes - old(maps.byAddr.nodes))
      ensures InStep(Now()) <==> forall id :: id in dao.rows ==> exists i :: 0 <= i < |clients| && clients[i].id == id
      ensures Distinguished(dceList) <==>
        forall i, j :: 0 <= i < j < |clients| ==> HashesDiffer(clients[i], clients[j], hs)
    {
      SetList(clients);
      LoadAll();
      LoadEnds(Now(), hs);
    }

    /**
     Whether a client that was just added is found by the nickname its caller used: what is stored is
     cut to 15 characters, what is looked up is not.  A longer nickname is found only by an accident
     of the hash function.
     */
    method AddThenFind(nickname: string, host: string, port: string, fault: bool) returns (dce: Element?, found: Element?)
      requires Valid() && |dceList| + 1 < ADDRESSABLE
      modifies this, dao, maps.byId, maps.byNickname, maps.byAddr
      modifies maps.byId.nodes, maps.byNickname.nodes, maps.byAddr.nodes
      ensures dce != null && old(KeyFree(ByNickname, dceList, hs.nickname(Truncated(nickname, 16)))) ==>
        && (found == dce <==> hs.nickname(nickname) == hs.nickname(Truncated(nickname, 16)))
        && (|nickname| <= 15 ==> found == dce)
    {
      ghost var was := dceList;
      dce := AddClient(nickname, host, port, fault);
      if dce == null { return null, null; }
      NewestHolds(ByNickname, was, dce, hs.nickname(nickname));
      found := GetByKey(ByNickname, hs.nickname(nickname));
    }

    /** The same for the address, host and port. */
    method AddThenFindAddr(nickname: string, host: string, port: string, fault: bool)
        returns (dce: Element?, found: Element?)
      requires Valid() && |dceList| + 1 < ADDRESSABLE
      modifies this, dao, maps.byId, maps.byNickname, maps.byAddr
      modifies maps.byId.nodes, maps.byNickname.nodes, maps.byAddr.nodes
      ensures dce != null && old(KeyFree(ByAddr, dceList, hs.addr(Truncated(host, 256), Truncated(port, 6)))) ==>
        && (found == dce <==> hs.addr(host, port) == hs.addr(Truncated(host, 256), Truncated(port, 6)))
        && (|host| <= 255 && |port| <= 5 ==> found == dce)
    {
      ghost var was := dceList;
      dce := AddClient(nickname, host, port, fault);
      if dce == null { return null, null; }
      NewestHolds(ByAddr, was, dce, hs.addr(host, port));
      found := GetByKey(ByAddr, hs.addr(host, port));
    }

    /** The newest element, if nobody else has its key, is what a look-up by that key returns. */
    lemma NewestHolds(x: Index, was: seq<Element>, e: Element, key: int)
      requires Valid() && dceList == was + [e]
      ensures KeyFree(x, was, Key(x, e)) ==> (Holder(x, key) == e <==> key == Key(x, e))
      ensures e.hashNickname == hs.nickname(e.client.row.nickname)
      ensures e.hashAddr == hs.addr(e.client.row.host, e.client.row.port)
    {
      HolderLives(x, key);
      assert dceList[|was|] == e && Agrees(dceList[|was|], dao.rows, hs);
      forall d | d in was ensures exists i :: 0 <= i < |was| && was[i] == d {}
    }
  }

  // ---------- inputs for which a promise fails ----------

  /** With a hash that is the length, a nickname of sixteen characters is not found: it is stored without the last one. */
  method LongNicknameIsNotFound(c: Cache) returns (dce: Element?, found: Element?)
    requires c.Valid() && c.dceList == [] && c.dao.rows == map[] && forall s: string :: c.hs.nickname(s) == |s|
    modifies c, c.dao, c.maps.byId, c.maps.byNickname, c.maps.byAddr
    modifies c.maps.byId.nodes, c.maps.byNickname.nodes, c.maps.byAddr.nodes
    ensures dce != null && dce in c.dceList && found == null
  {
    dce := c.AddClient("sixteencharacter", "host", "1", false);
    found := c.GetClientByNickname("sixteencharacter");
  }

  /** A client whose nickname hashes like that of a live one is kept beside it. */
  method SharedHashIsKept(c: Cache, a: Element, nickname: string) returns (b: Element)
    requires c.Valid() && |c.dceList| + 1 < ADDRESSABLE && |nickname| <= 15
    requires a in c.dceList && a.hashNickname == c.hs.nickname(nickname)
    requires forall id :: id in c.dao.rows ==> c.dao.rows[id].nickname != nickname
    modifies c, c.dao, c.maps.byId, c.maps.byNickname, c.maps.byAddr
    modifies c.maps.byId.nodes, c.maps.byNickname.nodes, c.maps.byAddr.nodes
    ensures c.Valid() && c.dceList == old(c.dceList) + [b]
    ensures b.hashNickname == a.hashNickname && b.client.row.nickname == nickname
  {
    assert Truncate(nickname, "h", "1").nickname == nickname;
    b := c.AddClient(nickname, "h", "1", false);
    assert Agrees(c.dceList[|c.dceList| - 1], c.dao.rows, c.hs);
  }

  /** Of two clients with one nickname hash, the one that a look-up does not return cannot be removed safely. */
  method SharedHashBreaksRemoval(c: Cache, a: Element, b: Element, ghost i: nat, ghost j: nat) returns (gone: Element)
    requires c.Valid() && |c.dceList| + 1 < ADDRESSABLE && a.hashNickname == b.hashNickname
    requires i < |c.dceList| && j < |c.dceList| && i != j && c.dceList[i] == a && c.dceList[j] == b
    modifies c, c.dao, c.maps.byId, c.maps.byNickname, c.maps.byAddr
    modifies c.maps.byId.nodes, c.maps.byNickname.nodes, c.maps.byAddr.nodes
    ensures gone == a || gone == b
    ensures c.Sound() && !c.Valid()
  {
    var found := c.GetByKey(ByNickname, a.hashNickname);
    assert a != b by { DifferShrinks(ById, c.dceList, i); assert Key(ById, a) != Key(ById, b); }
    ghost var n;
    if found == a {
      gone := b;
      n := c.RemoveClient(b, false, j);
    } else {
      gone := a;
      n := c.RemoveClient(a, false, i);
    }
  }

  lemma PairFacts(c: Cache, a: Element, b: Element)
    requires c.Valid() && c.dceList == [a, b] && a.hashNickname == b.hashNickname
    ensures a.id != b.id && a.id in c.dao.rows && b.id in c.dao.rows
    ensures a.hashNickname == c.hs.nickname(a.client.row.nickname) == c.hs.nickname(b.client.row.nickname)
    ensures !KeyFree(ByNickname, c.dceList, a.hashNickname)
  {
    assert Agrees(c.dceList[0], c.dao.rows, c.hs) && Agrees(c.dceList[1], c.dao.rows, c.hs);
    assert Key(ByNickname, c.dceList[0]) == a.hashNickname && Key(ById, c.dceList[0]) != Key(ById, c.dceList[1]);
  }

  lemma PairLeft(p: Picture, q: Picture, k: nat, n: Per<Node>, kept: Element, gone: Element)
    requires Departed(p, q, k, false, n) && |p.elems| == 2 && p.elems[k] == gone && p.elems[1 - k] == kept
    requires kept.id in p.rows && kept.id != gone.id
    ensures q.elems == [kept] && kept.id in q.rows && gone.id !in q.rows
  {
  }

  /** And a removal by its nickname takes the other client, with its row, and keeps the one that was named. */
  method SharedHashRemovesOther(c: Cache, a: Element, b: Element) returns (nickname: string, kept: Element, gone: Element)
    requires c.Valid() && c.dceList == [a, b] && a.hashNickname == b.hashNickname
    requires a.client.row.nickname != b.client.row.nickname
    modifies c, c.dao, c.maps.byId, c.maps.byNickname, c.maps.byAddr
    modifies c.maps.byId.nodes, c.maps.byNickname.nodes, c.maps.byAddr.nodes
    ensures kept.client.row.nickname == nickname && gone.client.row.nickname != nickname
    ensures c.dceList == [kept] && kept.id in c.dao.rows && gone.id !in c.dao.rows
  {
    var found := c.GetByKey(ByNickname, a.hashNickname);
    PairFacts(c, a, b);
    kept, gone := if found == a then b else a, if found == a then a else b;
    nickname := kept.client.row.nickname;
    ghost var k, n;
    ghost var p := c.Now();
    k, n := c.RemoveClientByNickname(nickname, false);
    PairLeft(p, c.Now(), k, n, kept, gone);
  }
}
