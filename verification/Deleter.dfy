/**
  The reference-counted ownership graph behind a packet's buffers.

  A deleter is a location that holds a pointer: nothing, an object to free
  directly (the pointer's bit 0 is set), or a shared, counted node that carries
  an action and a further deleter. Deleters live in variables (`Handle` cells),
  in the `next` field of a node and, when one deleter is the object of another,
  inside a node's payload.
 */
module Deleter {
  import opened Bytes

  /** The identity of one action to carry out: a `free`, a captured function, a destructor. */
  type Action = nat

  datatype Ptr = Null | Raw(obj: Action) | Impl(id: nat)

  datatype Payload = Act(action: Action) | Held(inner: Ptr)

  datatype Cell =
    | Handle(next: Ptr)
    | Node(refs: nat, next: Ptr, payload: Payload)
    | Freed

  function WithNext(c: Cell, p: Ptr): Cell
    requires !c.Freed?
  {
    match c
    case Handle(_) => Handle(p)
    case Node(refs, _, payload) => Node(refs, p, payload)
  }

  // ---------- Counting owners ----------

  /** What is counted over the arena: the deleters holding a pointer, and the nodes carrying an action. */
  datatype Key = Points(p: Ptr) | Carries(a: Action)

  function Bit(b: bool): nat {
    if b then 1 else 0
  }

  function Fields(c: Cell, key: Key): nat {
    match key
    case Points(p) => Bit(!c.Freed? && c.next == p) + Bit(c.Node? && c.payload == Held(p))
    case Carries(a) => Bit(c.Node? && c.payload == Act(a))
  }

  ghost function Count(cells: seq<Cell>, key: Key): nat {
    if cells == [] then 0
    else Count(cells[..|cells| - 1], key) + Fields(cells[|cells| - 1], key)
  }

  lemma {:induction false} CountUpdate(cells: seq<Cell>, k: nat, c: Cell, key: Key)
    requires k < |cells|
    ensures Count(cells[k := c], key) == Count(cells, key) - Fields(cells[k], key) + Fields(c, key)
    ensures Fields(cells[k], key) <= Count(cells, key)
  {
    var n := |cells| - 1;
    if k < n {
      CountUpdate(cells[..n], k, c, key);
      assert cells[k := c][..n] == cells[..n][k := c];
    } else {
      assert cells[k := c][..n] == cells[..n];
    }
  }

  lemma CountSnoc(cells: seq<Cell>, c: Cell, key: Key)
    ensures Count(cells + [c], key) == Count(cells, key) + Fields(c, key)
  {
    assert (cells + [c])[..|cells|] == cells;
  }

  lemma {:induction false} CountTwo(cells: seq<Cell>, j: nat, k: nat, key: Key)
    requires j < |cells| && k < |cells| && j != k
    ensures Fields(cells[j], key) + Fields(cells[k], key) <= Count(cells, key)
  {
    CountUpdate(cells, j, Freed, key);
    CountUpdate(cells[j := Freed], k, Freed, key);
  }

  lemma {:induction false} CountFinds(cells: seq<Cell>, key: Key) returns (k: nat)
    requires Count(cells, key) > 0
    ensures k < |cells| && Fields(cells[k], key) > 0
  {
    k := |cells| - 1;
    if Fields(cells[k], key) == 0 {
      k := CountFinds(cells[..k], key);
    }
  }

  // ---------- The invariant ----------

  /** Everything in one reading of the arena; `temps` are the deleters held by running code. */
  ghost function Owners(cells: seq<Cell>, temps: multiset<Ptr>, p: Ptr): nat {
    temps[p] + Count(cells, Points(p))
  }

  function Refs(cells: seq<Cell>, id: nat): nat {
    if id < |cells| && cells[id].Node? then cells[id].refs else 0
  }

  /** A node's `refs` is the number of deleters holding it; nobody holds anything else. */
  ghost predicate Owned(cells: seq<Cell>, temps: multiset<Ptr>) {
    && (forall id: nat :: Owners(cells, temps, Impl(id)) == Refs(cells, id))
    && (forall k :: 0 <= k < |cells| && cells[k].Node? ==> cells[k].refs >= 1)
  }

  /** Every action made is in exactly one place: done, held directly, or carried by a node. */
  ghost predicate Conserved(cells: seq<Cell>, temps: multiset<Ptr>, log: seq<Action>, created: set<Action>) {
    forall a: Action ::
      multiset(log)[a] + Owners(cells, temps, Raw(a)) + Count(cells, Carries(a)) == Bit(a in created)
  }

  /** The actions behind a pointer, given those behind every cell. */
  ghost function Behind(acts: seq<set<Action>>, p: Ptr): set<Action> {
    match p
    case Null => {}
    case Raw(a) => {a}
    case Impl(id) => if id < |acts| then acts[id] else {}
  }

  ghost function Rank(rank: seq<nat>, p: Ptr): nat {
    match p
    case Null => 0
    case Raw(_) => 1
    case Impl(id) => if id < |rank| then rank[id] else 0
  }

  /** `acts` is what the cell reaches, `rank` decreases along every pointer: there is no cycle. */
  ghost predicate LabelAt(c: Cell, acts: seq<set<Action>>, rank: seq<nat>, k: nat)
    requires k < |acts| == |rank|
  {
    match c
    case Freed => true
    case Handle(next) => acts[k] == Behind(acts, next) && rank[k] > Rank(rank, next)
    case Node(_, next, Act(a)) => acts[k] == {a} + Behind(acts, next) && rank[k] > Rank(rank, next)
    case Node(_, next, Held(inner)) =>
      && acts[k] == Behind(acts, inner) + Behind(acts, next)
      && rank[k] > Rank(rank, next) && rank[k] > Rank(rank, inner)
  }

  ghost predicate Labelled(cells: seq<Cell>, acts: seq<set<Action>>, rank: seq<nat>) {
    && |acts| == |rank| == |cells|
    && forall k :: 0 <= k < |cells| ==> LabelAt(cells[k], acts, rank, k)
  }

  // ---------- What the invariant means for actions ----------

  /** An action behind a pointer that is owned has not been carried out. */
  lemma {:induction false} BehindPending(cells: seq<Cell>, temps: multiset<Ptr>, log: seq<Action>,
                                         created: set<Action>, acts: seq<set<Action>>, rank: seq<nat>,
                                         p: Ptr, a: Action)
    requires Owned(cells, temps) && Conserved(cells, temps, log, created) && Labelled(cells, acts, rank)
    requires a in Behind(acts, p) && Owners(cells, temps, p) > 0
    ensures a in created && a !in multiset(log)
    decreases Rank(rank, p)
  {
    if p.Impl? {
      assert Refs(cells, p.id) > 0;
      var c := cells[p.id];
      assert LabelAt(c, acts, rank, p.id);
      CellOwns(cells, temps, p.id);
      if c.payload == Act(a) {
        CountUpdate(cells, p.id, c, Carries(a));
      } else if a in Behind(acts, c.next) {
        BehindPending(cells, temps, log, created, acts, rank, c.next, a);
      } else {
        BehindPending(cells, temps, log, created, acts, rank, c.payload.inner, a);
      }
    }
  }

  lemma CellOwns(cells: seq<Cell>, temps: multiset<Ptr>, k: nat)
    requires k < |cells| && !cells[k].Freed?
    ensures Owners(cells, temps, cells[k].next) > 0
    ensures cells[k].Node? && cells[k].payload.Held? ==> Owners(cells, temps, cells[k].payload.inner) > 0
  {
    CountUpdate(cells, k, cells[k], Points(cells[k].next));
    if cells[k].Node? && cells[k].payload.Held? {
      CountUpdate(cells, k, cells[k], Points(cells[k].payload.inner));
    }
  }

  ghost function MaxRank(rank: seq<nat>): (m: nat)
    ensures forall k :: 0 <= k < |rank| ==> rank[k] <= m
  {
    if rank == [] then 0
    else
      var rest := MaxRank(rank[..|rank| - 1]);
      if rank[|rank| - 1] > rest then rank[|rank| - 1] else rest
  }

  /** From any owned pointer, following owners upwards ends at a variable or a temporary. */
  lemma {:induction false} OwnerOf(cells: seq<Cell>, temps: multiset<Ptr>, acts: seq<set<Action>>,
                                   rank: seq<nat>, p: Ptr) returns (root: Ptr)
    requires Owned(cells, temps) && Labelled(cells, acts, rank)
    requires p != Null && Owners(cells, temps, p) > 0
    ensures root in temps || exists k :: 0 <= k < |cells| && cells[k] == Handle(root)
    ensures Behind(acts, p) <= Behind(acts, root)
    decreases MaxRank(rank) - Rank(rank, p), if p.Raw? then 1 else 0
  {
    if p in temps {
      return p;
    }
    var k := CountFinds(cells, Points(p));
    assert LabelAt(cells[k], acts, rank, k);
    if cells[k].Handle? {
      return p;
    }
    assert Refs(cells, k) > 0;
    assert Owners(cells, temps, Impl(k)) > 0;
    root := OwnerOf(cells, temps, acts, rank, Impl(k));
  }

  /** An action is outstanding exactly while some variable or temporary still reaches it. */
  lemma Outstanding(cells: seq<Cell>, temps: multiset<Ptr>, log: seq<Action>, created: set<Action>,
                    acts: seq<set<Action>>, rank: seq<nat>, a: Action)
    requires Owned(cells, temps) && Conserved(cells, temps, log, created) && Labelled(cells, acts, rank)
    ensures multiset(log)[a]
            == Bit(a in created
                   && (forall k :: 0 <= k < |cells| && cells[k].Handle? ==> a !in acts[k])
                   && (forall p :: p in temps ==> a !in Behind(acts, p)))
  {
    assert multiset(log)[a] + Owners(cells, temps, Raw(a)) + Count(cells, Carries(a)) == Bit(a in created);
    forall k | 0 <= k < |cells| && cells[k].Handle? && a in acts[k] ensures a in created && a !in multiset(log) {
      assert LabelAt(cells[k], acts, rank, k);
      CellOwns(cells, temps, k);
      BehindPending(cells, temps, log, created, acts, rank, cells[k].next, a);
    }
    forall p | p in temps && a in Behind(acts, p) ensures a in created && a !in multiset(log) {
      BehindPending(cells, temps, log, created, acts, rank, p, a);
    }
    if a in created && multiset(log)[a] == 0 {
      var p := Raw(a);
      if Count(cells, Carries(a)) > 0 {
        var k := CountFinds(cells, Carries(a));
        assert LabelAt(cells[k], acts, rank, k) && Refs(cells, k) > 0;
        p := Impl(k);
        assert Owners(cells, temps, p) > 0;
      }
      var root := OwnerOf(cells, temps, acts, rank, p);
      assert a in Behind(acts, root);
      if root !in temps {
        var k :| 0 <= k < |cells| && cells[k] == Handle(root);
        assert LabelAt(cells[k], acts, rank, k);
      }
    }
  }

  // ---------- Single steps ----------

  /** `--refs` where other owners remain. */
  lemma DropRef(cells: seq<Cell>, temps: multiset<Ptr>, log: seq<Action>, created: set<Action>, id: nat)
    requires id < |cells| && cells[id].Node? && cells[id].refs >= 2
    requires Owned(cells, temps + multiset{Impl(id)}) && Conserved(cells, temps + multiset{Impl(id)}, log, created)
    ensures var after := cells[id := cells[id].(refs := cells[id].refs - 1)];
            Owned(after, temps) && Conserved(after, temps, log, created)
  {
    var after := cells[id := cells[id].(refs := cells[id].refs - 1)];
    hide Count;
    var before := temps + multiset{Impl(id)};
    forall i: nat ensures Owners(after, temps, Impl(i)) == Refs(after, i) {
      CountUpdate(cells, id, after[id], Points(Impl(i)));
      assert Owners(cells, before, Impl(i)) == Refs(cells, i);
    }
    forall a: Action
      ensures multiset(log)[a] + Owners(after, temps, Raw(a)) + Count(after, Carries(a)) == Bit(a in created) {
      CountUpdate(cells, id, after[id], Points(Raw(a)));
      CountUpdate(cells, id, after[id], Carries(a));
      assert multiset(log)[a] + Owners(cells, before, Raw(a)) + Count(cells, Carries(a)) == Bit(a in created);
    }
  }

  function Children(c: Cell): multiset<Ptr>
    requires c.Node?
  {
    multiset{c.next} + if c.payload.Held? then multiset{c.payload.inner} else multiset{}
  }

  function Carried(c: Cell): seq<Action>
    requires c.Node?
  {
    if c.payload.Act? then [c.payload.action] else []
  }

  lemma Contained(c: Cell)
    requires c.Node?
    ensures forall p :: Children(c)[p] == Fields(c, Points(p))
    ensures forall a :: multiset(Carried(c))[a] == Fields(c, Carries(a))
  {
  }

  /** `delete _impl`: the action is done and the deleters inside become temporaries. */
  lemma FreeNode(cells: seq<Cell>, temps: multiset<Ptr>, log: seq<Action>, created: set<Action>, id: nat)
    requires id < |cells| && cells[id].Node? && cells[id].refs == 1
    requires Owned(cells, temps + multiset{Impl(id)}) && Conserved(cells, temps + multiset{Impl(id)}, log, created)
    ensures var after, held := cells[id := Freed], temps + Children(cells[id]);
            Owned(after, held) && Conserved(after, held, log + Carried(cells[id]), created)
  {
    var after, held := cells[id := Freed], temps + Children(cells[id]);
    hide Count;
    Contained(cells[id]);
    hide Children;
    hide Carried;
    var before := temps + multiset{Impl(id)};
    forall i: nat ensures Owners(after, held, Impl(i)) == Refs(after, i) {
      CountUpdate(cells, id, Freed, Points(Impl(i)));
      assert Owners(cells, before, Impl(i)) == Refs(cells, i);
    }
    forall a: Action
      ensures multiset(log + Carried(cells[id]))[a] + Owners(after, held, Raw(a)) + Count(after, Carries(a))
              == Bit(a in created) {
      CountUpdate(cells, id, Freed, Points(Raw(a)));
      CountUpdate(cells, id, Freed, Carries(a));
      assert multiset(log)[a] + Owners(cells, before, Raw(a)) + Count(cells, Carries(a)) == Bit(a in created);
      assert multiset(log + Carried(cells[id])) == multiset(log) + multiset(Carried(cells[id]));
    }
  }

  /** A deleter variable or field `k` gives up `cells[k].next` and takes `p`. */
  lemma Swap(cells: seq<Cell>, temps: multiset<Ptr>, log: seq<Action>, created: set<Action>, k: nat, p: Ptr)
    requires k < |cells| && !cells[k].Freed?
    requires Owned(cells, temps + multiset{p}) && Conserved(cells, temps + multiset{p}, log, created)
    ensures var after, held := cells[k := WithNext(cells[k], p)], temps + multiset{cells[k].next};
            Owned(after, held) && Conserved(after, held, log, created)
  {
    hide Owned;
    hide Conserved;
    SwapOwned(cells, temps, k, p);
    SwapConserved(cells, temps, log, created, k, p);
  }

  lemma SwapOwned(cells: seq<Cell>, temps: multiset<Ptr>, k: nat, p: Ptr)
    requires k < |cells| && !cells[k].Freed? && Owned(cells, temps + multiset{p})
    ensures Owned(cells[k := WithNext(cells[k], p)], temps + multiset{cells[k].next})
  {
    var after, held := cells[k := WithNext(cells[k], p)], temps + multiset{cells[k].next};
    hide Count;
    var before := temps + multiset{p};
    forall i: nat ensures Owners(after, held, Impl(i)) == Refs(after, i) {
      CountUpdate(cells, k, after[k], Points(Impl(i)));
      assert Owners(cells, before, Impl(i)) == Refs(cells, i);
    }
  }

  lemma SwapConserved(cells: seq<Cell>, temps: multiset<Ptr>, log: seq<Action>, created: set<Action>, k: nat, p: Ptr)
    requires k < |cells| && !cells[k].Freed? && Conserved(cells, temps + multiset{p}, log, created)
    ensures Conserved(cells[k := WithNext(cells[k], p)], temps + multiset{cells[k].next}, log, created)
  {
    var after, held := cells[k := WithNext(cells[k], p)], temps + multiset{cells[k].next};
    hide Count;
    var before := temps + multiset{p};
    forall a: Action
      ensures multiset(log)[a] + Owners(after, held, Raw(a)) + Count(after, Carries(a)) == Bit(a in created) {
      CountUpdate(cells, k, after[k], Points(Raw(a)));
      CountUpdate(cells, k, after[k], Carries(a));
      assert multiset(log)[a] + Owners(cells, before, Raw(a)) + Count(cells, Carries(a)) == Bit(a in created);
    }
  }

  /** What a new cell takes over: the pointers it holds, and its action, either new or until now held raw. */
  ghost predicate Fits(c: Cell, taken: multiset<Ptr>, made: set<Action>) {
    match c
    case Freed => false
    case Handle(next) => taken == multiset{next} && made == {}
    case Node(refs, _, Held(_)) => refs == 1 && taken == Children(c) && made == {}
    case Node(refs, _, Act(a)) =>
      && refs == 1
      && if a in made then taken == Children(c) && made == {a}
         else taken == Children(c) + multiset{Raw(a)} && made == {}
  }

  /** A new cell takes over temporaries; if it is a node, its one owner is a temporary. */
  lemma Allocate(cells: seq<Cell>, temps: multiset<Ptr>, log: seq<Action>, created: set<Action>, c: Cell,
                 taken: multiset<Ptr>, made: set<Action>)
    requires Owned(cells, temps + taken) && Conserved(cells, temps + taken, log, created)
    requires Fits(c, taken, made) && made !! created
    ensures var after := cells + [c];
            var held := temps + if c.Node? then multiset{Impl(|cells|)} else multiset{};
            Owned(after, held) && Conserved(after, held, log, created + made)
  {
    hide Owned;
    hide Conserved;
    hide Fits;
    AllocateOwned(cells, temps, c, taken, made);
    AllocateConserved(cells, temps, log, created, c, taken, made);
  }

  lemma AllocateOwned(cells: seq<Cell>, temps: multiset<Ptr>, c: Cell, taken: multiset<Ptr>, made: set<Action>)
    requires Owned(cells, temps + taken) && Fits(c, taken, made)
    ensures Owned(cells + [c], temps + if c.Node? then multiset{Impl(|cells|)} else multiset{})
  {
    var after := cells + [c];
    var held := temps + if c.Node? then multiset{Impl(|cells|)} else multiset{};
    var before := temps + taken;
    hide Count;
    forall i: nat ensures Owners(after, held, Impl(i)) == Refs(after, i) {
      CountSnoc(cells, c, Points(Impl(i)));
      assert Owners(cells, before, Impl(i)) == Refs(cells, i);
    }
  }

  lemma AllocateConserved(cells: seq<Cell>, temps: multiset<Ptr>, log: seq<Action>, created: set<Action>, c: Cell,
                          taken: multiset<Ptr>, made: set<Action>)
    requires Conserved(cells, temps + taken, log, created) && Fits(c, taken, made) && made !! created
    ensures Conserved(cells + [c], temps + if c.Node? then multiset{Impl(|cells|)} else multiset{}, log, created + made)
  {
    var after := cells + [c];
    var held := temps + if c.Node? then multiset{Impl(|cells|)} else multiset{};
    var before := temps + taken;
    hide Count;
    forall a: Action
      ensures multiset(log)[a] + Owners(after, held, Raw(a)) + Count(after, Carries(a)) == Bit(a in created + made) {
      CountSnoc(cells, c, Points(Raw(a)));
      CountSnoc(cells, c, Carries(a));
      assert multiset(log)[a] + Owners(cells, before, Raw(a)) + Count(cells, Carries(a)) == Bit(a in created);
    }
  }

  /** An empty deleter owns nothing. */
  lemma Empties(cells: seq<Cell>, temps: multiset<Ptr>, log: seq<Action>, created: set<Action>)
    ensures Owned(cells, temps) <==> Owned(cells, temps + multiset{Null})
    ensures Conserved(cells, temps, log, created) <==> Conserved(cells, temps + multiset{Null}, log, created)
  {
    hide Count;
    var more := temps + multiset{Null};
    assert forall i: nat :: Owners(cells, temps, Impl(i)) == Owners(cells, more, Impl(i));
    assert forall a: Action :: Owners(cells, temps, Raw(a)) == Owners(cells, more, Raw(a));
  }

  /** A new node `c` takes the place of `cells[at].next`, which it takes over together with `extra`. */
  lemma Interpose(cells: seq<Cell>, temps: multiset<Ptr>, log: seq<Action>, created: set<Action>,
                  at: nat, c: Cell, extra: multiset<Ptr>)
    requires at < |cells| && !cells[at].Freed?
    requires Owned(cells, temps + extra) && Conserved(cells, temps + extra, log, created)
    requires c.Node? && Fits(c, multiset{cells[at].next} + extra, {})
    ensures var after := (cells + [c])[at := WithNext(cells[at], Impl(|cells|))];
            Owned(after, temps) && Conserved(after, temps, log, created)
  {
    hide Owned;
    hide Conserved;
    var q, n := cells[at].next, Impl(|cells|);
    var open := cells[at := WithNext(cells[at], Null)];
    var after := (cells + [c])[at := WithNext(cells[at], n)];
    Empties(cells, temps + extra, log, created);
    Swap(cells, temps + extra, log, created, at, Null);
    assert temps + extra + multiset{q} == temps + (multiset{q} + extra);
    Allocate(open, temps, log, created, c, multiset{q} + extra, {});
    assert created + {} == created;
    Swap(open + [c], temps, log, created, at, n);
    assert (open + [c])[at := WithNext((open + [c])[at], n)] == after;
    Empties(after, temps, log, created);
  }

  /** `++refs`, the new owner being a temporary. */
  lemma AddRef(cells: seq<Cell>, temps: multiset<Ptr>, log: seq<Action>, created: set<Action>, id: nat)
    requires id < |cells| && cells[id].Node?
    requires Owned(cells, temps) && Conserved(cells, temps, log, created)
    ensures var after, held := cells[id := cells[id].(refs := cells[id].refs + 1)], temps + multiset{Impl(id)};
            Owned(after, held) && Conserved(after, held, log, created)
  {
    hide Count;
    var after, held := cells[id := cells[id].(refs := cells[id].refs + 1)], temps + multiset{Impl(id)};
    forall i: nat ensures Owners(after, held, Impl(i)) == Refs(after, i) {
      CountUpdate(cells, id, after[id], Points(Impl(i)));
      assert Owners(cells, temps, Impl(i)) == Refs(cells, i);
    }
    forall a: Action
      ensures multiset(log)[a] + Owners(after, held, Raw(a)) + Count(after, Carries(a)) == Bit(a in created) {
      CountUpdate(cells, id, after[id], Points(Raw(a)));
      CountUpdate(cells, id, after[id], Carries(a));
      assert multiset(log)[a] + Owners(cells, temps, Raw(a)) + Count(cells, Carries(a)) == Bit(a in created);
    }
  }

  // ---------- The chain that `append` walks ----------

  ghost predicate Outside(p: Ptr, walked: set<nat>) {
    p.Impl? ==> p.id !in walked
  }

  /** Only the walked cells themselves point to walked cells, each to the next one. */
  ghost predicate Exclusive(cells: seq<Cell>, walked: set<nat>, at: nat) {
    && at in walked
    && (forall w :: w in walked ==> w < |cells| && !cells[w].Freed?)
    && (forall w :: w in walked && w != at ==> !Outside(cells[w].next, walked))
    && (forall k :: 0 <= k < |cells| && k !in walked && !cells[k].Freed? ==> Outside(cells[k].next, walked))
    && (forall k :: 0 <= k < |cells| && k !in walked && cells[k].Node? && cells[k].payload.Held? ==>
          Outside(cells[k].payload.inner, walked))
  }

  ghost function Widen(acts: seq<set<Action>>, walked: set<nat>, extra: set<Action>): (r: seq<set<Action>>)
    ensures |r| == |acts|
    ensures forall k :: 0 <= k < |r| ==> r[k] == if k in walked then acts[k] + extra else acts[k]
  {
    seq(|acts|, k requires 0 <= k < |acts| => if k in walked then acts[k] + extra else acts[k])
  }

  ghost function Raise(rank: seq<nat>, walked: set<nat>, lift: nat): (r: seq<nat>)
    ensures |r| == |rank|
    ensures forall k :: 0 <= k < |r| ==> r[k] == if k in walked then rank[k] + lift else rank[k]
  {
    seq(|rank|, k requires 0 <= k < |rank| => if k in walked then rank[k] + lift else rank[k])
  }

  /** A variable owns its chain alone at the start, and alone up to the first node with another owner. */
  lemma StartOfChain(cells: seq<Cell>, temps: multiset<Ptr>, h: nat)
    requires Owned(cells, temps) && h < |cells| && cells[h].Handle?
    ensures Exclusive(cells, {h}, h)
    ensures forall p :: p in temps ==> Outside(p, {h})
  {
    assert Owners(cells, temps, Impl(h)) == Refs(cells, h) == 0;
    forall k | 0 <= k < |cells| {
      CountUpdate(cells, k, cells[k], Points(Impl(h)));
    }
  }

  lemma ExtendChain(cells: seq<Cell>, temps: multiset<Ptr>, walked: set<nat>, at: nat, id: nat)
    requires Owned(cells, temps) && Exclusive(cells, walked, at)
    requires cells[at].next == Impl(id) && Refs(cells, id) == 1
    ensures Exclusive(cells, walked + {id}, id)
    ensures Impl(id) !in temps
  {
    hide Count;
    assert Owners(cells, temps, Impl(id)) == 1;
    CountUpdate(cells, at, cells[at], Points(Impl(id)));
    forall k | 0 <= k < |cells| && k != at ensures Fields(cells[k], Points(Impl(id))) == 0 {
      CountTwo(cells, k, at, Points(Impl(id)));
    }
  }

  /** Hanging `extra` at the end of the chain adds it to what the walked cells reach, and to nothing else. */
  lemma Relabel(cells: seq<Cell>, acts: seq<set<Action>>, rank: seq<nat>, walked: set<nat>, at: nat,
                p: Ptr, extra: set<Action>)
    requires Labelled(cells, acts, rank) && Exclusive(cells, walked, at) && Outside(p, walked)
    requires Behind(acts, p) == Behind(acts, cells[at].next) + extra
    ensures Labelled(cells[at := WithNext(cells[at], p)], Widen(acts, walked, extra),
                     Raise(rank, walked, Rank(rank, p)))
  {
    hide LabelAt;
    hide Behind;
    hide Outside;
    hide WithNext;
    var after := cells[at := WithNext(cells[at], p)];
    var acts', rank' := Widen(acts, walked, extra), Raise(rank, walked, Rank(rank, p));
    forall k | 0 <= k < |cells| ensures LabelAt(after[k], acts', rank', k) {
      RelabelOne(cells, acts, rank, walked, at, p, extra, k);
    }
  }

  lemma RelabelOne(cells: seq<Cell>, acts: seq<set<Action>>, rank: seq<nat>, walked: set<nat>, at: nat,
                   p: Ptr, extra: set<Action>, k: nat)
    requires Labelled(cells, acts, rank) && Exclusive(cells, walked, at) && Outside(p, walked)
    requires Behind(acts, p) == Behind(acts, cells[at].next) + extra && k < |cells|
    ensures LabelAt(cells[at := WithNext(cells[at], p)][k], Widen(acts, walked, extra),
                    Raise(rank, walked, Rank(rank, p)), k)
  {
    hide Behind;
    hide Rank;
    hide Outside;
    var c := cells[at := WithNext(cells[at], p)][k];
    assert LabelAt(cells[k], acts, rank, k);
    if !cells[k].Freed? {
      Widened(acts, rank, walked, extra, Rank(rank, p), c.next);
      if cells[k].Node? && cells[k].payload.Held? {
        Widened(acts, rank, walked, extra, Rank(rank, p), cells[k].payload.inner);
      }
    }
    assert LabelAt(c, Widen(acts, walked, extra), Raise(rank, walked, Rank(rank, p)), k);
  }

  lemma ExclusiveSnoc(cells: seq<Cell>, walked: set<nat>, at: nat, c: Cell)
    requires Exclusive(cells, walked, at) && c.Node? && Outside(c.next, walked)
    requires c.payload.Held? ==> Outside(c.payload.inner, walked)
    ensures Exclusive(cells + [c], walked, at)
  {
  }

  /** The labels when a new node that holds `d` comes between `at` and what is behind it. */
  lemma LabelShared(cells: seq<Cell>, acts: seq<set<Action>>, rank: seq<nat>, at: nat, d: Ptr, walked: set<nat>)
    requires Owned(cells, multiset{d}) && Labelled(cells, acts, rank)
    requires Exclusive(cells, walked, at) && Outside(d, walked) && Outside(cells[at].next, walked)
    ensures var q, n := cells[at].next, |cells|;
            var height := Rank(rank, d) + Rank(rank, q) + 1;
            Labelled((cells + [Node(1, q, Held(d))])[at := WithNext(cells[at], Impl(n))],
                     Widen(acts + [Behind(acts, d) + Behind(acts, q)], walked, Behind(acts, d)),
                     Raise(rank + [height], walked, height))
  {
    hide Count;
    var q, n := cells[at].next, |cells|;
    var c := Node(1, q, Held(d));
    var reach, height := Behind(acts, d) + Behind(acts, q), Rank(rank, d) + Rank(rank, q) + 1;
    TempInRange(cells, multiset{d}, d);
    InRange(cells, multiset{d}, at);
    LabelledSnoc(cells, multiset{d}, acts, rank, c, reach, height);
    hide Owned;
    hide Labelled;
    ExclusiveSnoc(cells, walked, at, c);
    hide Exclusive;
    Relabel(cells + [c], acts + [reach], rank + [height], walked, at, Impl(n), Behind(acts, d));
  }

  lemma Widened(acts: seq<set<Action>>, rank: seq<nat>, walked: set<nat>, extra: set<Action>, lift: nat, p: Ptr)
    requires |acts| == |rank| && forall w :: w in walked ==> w < |acts|
    ensures var b := Outside(p, walked);
            && Behind(Widen(acts, walked, extra), p) == Behind(acts, p) + (if b then {} else extra)
            && Rank(Raise(rank, walked, lift), p) == Rank(rank, p) + (if b then 0 else lift)
  {
  }

  // ---------- The operations ----------

  class Heap {
    var cells: seq<Cell>
    var log: seq<Action>
    ghost var acts: seq<set<Action>>
    ghost var rank: seq<nat>
    ghost var created: set<Action>

    /** The invariant, with the deleters that running code holds at this moment. */
    ghost predicate Sound(temps: multiset<Ptr>)
      reads this
    {
      && Owned(cells, temps)
      && Conserved(cells, temps, log, created)
      && Labelled(cells, acts, rank)
      && |acts| == |rank| == |cells|
    }

    ghost predicate Valid()
      reads this
    {
      Sound(multiset{})
    }

    predicate Alive(h: nat)
      reads this
    {
      h < |cells| && cells[h].Handle?
    }

    /** What the documentation calls a deleter's encapsulated actions, for every deleter variable. */
    ghost function Meaning(): map<nat, set<Action>>
      reads this
    {
      map h: nat | h < |cells| && h < |acts| && cells[h].Handle? :: acts[h]
    }

    /** Every action runs once, and not before the last variable that encapsulates it is gone. */
    lemma ExactlyOnce(a: Action)
      requires Valid()
      ensures multiset(log)[a] == Bit(a in created && forall h :: h in Meaning() ==> a !in Meaning()[h])
    {
      Outstanding(cells, multiset{}, log, created, acts, rank, a);
      assert forall k :: 0 <= k < |cells| && cells[k].Handle? ==> k in Meaning();
    }

    /** With no variable left every action has run, once, and every node is gone. */
    lemma NothingLeft()
      requires Valid() && Meaning() == map[]
      ensures multiset(log) == multiset(created)
      ensures forall k :: 0 <= k < |cells| ==> cells[k].Freed?
    {
      assert forall k :: 0 <= k < |cells| && cells[k].Handle? ==> k in Meaning();
      forall a: Action ensures multiset(log)[a] == multiset(created)[a] {
        ExactlyOnce(a);
      }
      forall k | 0 <= k < |cells| && cells[k].Node? ensures false {
        assert Owners(cells, multiset{}, Impl(k)) == Refs(cells, k);
        var root := OwnerOf(cells, multiset{}, acts, rank, Impl(k));
        assert false;
      }
    }

    constructor ()
      ensures Valid() && Meaning() == map[] && log == [] && created == {}
    {
      cells, log, acts, rank, created := [], [], [], [], {};
    }

    /** deleter::~deleter, on the pointer the deleter held. */
    method Release(p: Ptr, ghost temps: multiset<Ptr>)
      requires Sound(temps + multiset{p})
      modifies `cells, `log
      ensures Sound(temps)
      ensures |cells| == |old(cells)| && old(log) <= log
      ensures forall k :: 0 <= k < |cells| && !old(cells)[k].Node? ==> cells[k] == old(cells)[k]
      ensures forall k :: 0 <= k < |cells| && cells[k].Handle? ==> old(cells)[k].Handle?
      ensures p.Impl? && Refs(old(cells), p.id) > 1 ==> log == old(log)
      decreases Rank(rank, p), 1
    {
      hide Owned;
      hide Conserved;
      hide Labelled;
      match p
      case Null =>
        Empties(cells, temps, log, created);
      case Raw(a) =>
        FreeRaw(cells, temps, log, created, a);
        log := log + [a];
      case Impl(id) =>
        TempIsNode(cells, temps, id);
        var c := cells[id];
        if c.refs > 1 {
          DropRef(cells, temps, log, created, id);
          LabelledLess(cells, acts, rank, id, c.(refs := c.refs - 1));
          cells := cells[id := c.(refs := c.refs - 1)];
        } else {
          Delete(id, temps);
        }
    }

    /** `delete _impl`: the destructor's own action, then the deleters it contains. */
    method Delete(id: nat, ghost temps: multiset<Ptr>)
      requires Sound(temps + multiset{Impl(id)}) && id < |cells| && cells[id].Node? && cells[id].refs == 1
      modifies `cells, `log
      ensures Sound(temps)
      ensures |cells| == |old(cells)| && old(log) <= log
      ensures forall k :: 0 <= k < |cells| && !old(cells)[k].Node? ==> cells[k] == old(cells)[k]
      ensures forall k :: 0 <= k < |cells| && cells[k].Handle? ==> old(cells)[k].Handle?
      decreases Rank(rank, Impl(id)), 0
    {
      hide Owned;
      hide Conserved;
      hide Labelled;
      var c := cells[id];
      FreeNode(cells, temps, log, created, id);
      LabelledLess(cells, acts, rank, id, Freed);
      cells, log := cells[id := Freed], log + Carried(c);
      if c.payload.Held? {
        assert temps + Children(c) == temps + multiset{c.next} + multiset{c.payload.inner};
        Release(c.payload.inner, temps + multiset{c.next});
      } else {
        assert temps + Children(c) == temps + multiset{c.next};
      }
      Release(c.next, temps);
    }

    /** Moving out of a variable leaves it empty. */
    method Take(h: nat, ghost temps: multiset<Ptr>) returns (p: Ptr)
      requires Sound(temps) && Alive(h)
      modifies `cells, `acts, `rank
      ensures Sound(temps + multiset{p}) && cells == old(cells)[h := Handle(Null)]
      ensures p == old(cells)[h].next && Behind(acts, p) == old(acts)[h] && acts == old(acts)[h := {}]
    {
      hide Count;
      p := cells[h].next;
      assert LabelAt(cells[h], acts, rank, h);
      InRange(cells, temps, h);
      Empties(cells, temps, log, created);
      Swap(cells, temps, log, created, h, Null);
      LabelledHandle(cells, temps, acts, rank, h, Null);
      hide Owned;
      hide Conserved;
      hide Labelled;
      cells, acts, rank := cells[h := Handle(Null)], acts[h := {}], rank[h := 1];
    }

    /** Moving into an empty variable. */
    method Put(h: nat, p: Ptr, ghost temps: multiset<Ptr>)
      requires Sound(temps + multiset{p}) && h < |cells| && cells[h] == Handle(Null)
      modifies `cells, `acts, `rank
      ensures Sound(temps) && cells == old(cells)[h := Handle(p)] && acts == old(acts)[h := Behind(old(acts), p)]
    {
      hide Owned;
      hide Conserved;
      hide Labelled;
      LabelledHandle(cells, temps + multiset{p}, acts, rank, h, p);
      Swap(cells, temps, log, created, h, p);
      cells, acts, rank := cells[h := Handle(p)], acts[h := Behind(acts, p)], rank[h := Rank(rank, p) + 1];
      Empties(cells, temps, log, created);
    }

    /** A new deleter variable around `p`. */
    method Declare(p: Ptr, ghost temps: multiset<Ptr>) returns (h: nat)
      requires Sound(temps + multiset{p})
      modifies `cells, `acts, `rank
      ensures Sound(temps) && h == |old(cells)|
      ensures cells == old(cells) + [Handle(p)] && acts == old(acts) + [Behind(old(acts), p)]
    {
      hide Conserved;
      hide Count;
      h := |cells|;
      if p.Impl? {
        TempIsNode(cells, temps, p.id);
      }
      LabelledSnoc(cells, temps + multiset{p}, acts, rank, Handle(p), Behind(acts, p), Rank(rank, p) + 1);
      hide Owned;
      hide Labelled;
      Allocate(cells, temps, log, created, Handle(p), multiset{p}, {});
      assert created + {} == created && temps + multiset{} == temps;
      cells, acts, rank := cells + [Handle(p)], acts + [Behind(acts, p)], rank + [Rank(rank, p) + 1];
    }

    /** make_free_deleter(obj): no object is nothing to do. */
    method MakeFree(obj: Option<Action>) returns (h: nat)
      requires Valid() && (obj.Some? ==> obj.value !in created)
      modifies this
      ensures var acts := if obj.Some? then {obj.value} else {};
              && Valid() && log == old(log) && created == old(created) + acts
              && h !in old(Meaning()) && Meaning() == old(Meaning())[h := acts]
    {
      if obj.Some? {
        h := MakeRaw(obj.value);
        return;
      }
      hide Owned;
      hide Conserved;
      hide Labelled;
      Empties(cells, multiset{}, log, created);
      h := Declare(Null, multiset{});
      assert created + {} == created;
    }

    /** A deleter that frees an object which no other one frees. */
    method MakeRaw(a: Action) returns (h: nat)
      requires Valid() && a !in created
      modifies this
      ensures Valid() && log == old(log) && created == old(created) + {a}
      ensures h !in old(Meaning()) && Meaning() == old(Meaning())[h := {a}]
    {
      NewRaw(cells, multiset{}, log, created, a);
      hide Owned;
      hide Conserved;
      hide Labelled;
      created := created + {a};
      h := Declare(Raw(a), multiset{});
    }

    /** make_deleter(next, o): the variable `j` is moved from. */
    method MakeDeleter(j: nat, a: Action) returns (h: nat)
      requires Valid() && Alive(j) && a !in created
      modifies this
      ensures Valid() && log == old(log) && created == old(created) + {a}
      ensures h !in old(Meaning())
      ensures Meaning() == old(Meaning())[j := {}][h := {a} + old(Meaning())[j]]
    {
      hide Owned;
      hide Conserved;
      hide Labelled;
      assert j in Meaning();
      var next := Take(j, multiset{});
      var n := NewNode(next, a, multiset{});
      h := Declare(Impl(n), multiset{});
    }

    /** lambda_deleter_impl: a node that takes over `next` and carries a new action. */
    method NewNode(next: Ptr, a: Action, ghost temps: multiset<Ptr>) returns (n: nat)
      requires Sound(temps + multiset{next}) && a !in created
      modifies `cells, `acts, `rank, `created
      ensures Sound(temps + multiset{Impl(n)}) && n == |old(cells)| && created == old(created) + {a}
      ensures cells == old(cells) + [Node(1, next, Act(a))] && acts == old(acts) + [{a} + Behind(old(acts), next)]
    {
      hide Conserved;
      hide Count;
      n := |cells|;
      var c := Node(1, next, Act(a));
      if next.Impl? {
        TempIsNode(cells, temps, next.id);
      }
      LabelledSnoc(cells, temps + multiset{next}, acts, rank, c, {a} + Behind(acts, next), Rank(rank, next) + 1);
      hide Owned;
      hide Labelled;
      assert Children(c) == multiset{next};
      Allocate(cells, temps, log, created, c, multiset{next}, {a});
      acts, rank := acts + [{a} + Behind(acts, next)], rank + [Rank(rank, next) + 1];
      cells, created := cells + [c], created + {a};
    }

    /** The move constructor. */
    method MoveConstruct(j: nat) returns (h: nat)
      requires Valid() && Alive(j)
      modifies `cells, `acts, `rank
      ensures Valid() && h !in old(Meaning()) && Meaning() == old(Meaning())[h := old(Meaning())[j]][j := {}]
    {
      hide Owned;
      hide Conserved;
      assert j in Meaning();
      var p := Take(j, multiset{});
      h := Declare(p, multiset{});
    }

    /** operator=(deleter&&): what the target held is released first, unless it is the source itself. */
    method MoveAssign(i: nat, j: nat)
      requires Valid() && Alive(i) && Alive(j)
      modifies `cells, `log, `acts, `rank
      ensures Valid() && old(log) <= log
      ensures Meaning() == if i == j then old(Meaning()) else old(Meaning())[i := old(Meaning())[j]][j := {}]
    {
      hide Owned;
      hide Conserved;
      assert i in Meaning() && j in Meaning();
      if i != j {
        var p := Take(i, multiset{});
        Release(p, multiset{});
        var q := Take(j, multiset{});
        Put(i, q, multiset{});
      }
    }

    /** A directly held object is put into a node of its own before it can be shared or extended. */
    method Box(at: nat, ghost temps: multiset<Ptr>)
      requires Sound(temps) && at < |cells| && !cells[at].Freed? && cells[at].next.Raw?
      modifies `cells, `acts, `rank
      ensures Sound(temps)
      ensures cells == old(cells)[at := WithNext(old(cells)[at], Impl(|old(cells)|))]
                       + [Node(1, Null, Act(old(cells)[at].next.obj))]
      ensures acts == old(acts) + [{old(cells)[at].next.obj}] && rank == old(rank) + [1]
    {
      hide Conserved;
      hide Count;
      var a := cells[at].next.obj;
      var c := Node(1, Null, Act(a));
      var after := cells[at := WithNext(cells[at], Impl(|cells|))] + [c];
      assert Children(c) == multiset{Null};
      assert (cells + [c])[at := WithNext(cells[at], Impl(|cells|))] == after;
      Empties(cells, temps, log, created);
      assert multiset{Null} + multiset{Raw(a)} == multiset{Raw(a)} + multiset{Null};
      Interpose(cells, temps, log, created, at, c, multiset{Null});
      LabelledSnoc(cells, temps, acts, rank, c, {a}, 1);
      LabelledSame(cells + [c], acts + [{a}], rank + [1], at, Impl(|cells|));
      hide Owned;
      hide Labelled;
      acts, rank, cells := acts + [{a}], rank + [1], after;
    }

    /** deleter::share: both variables now encapsulate the same actions. */
    method Share(i: nat) returns (h: nat)
      requires Valid() && Alive(i)
      modifies `cells, `acts, `rank
      ensures Valid() && h !in old(Meaning()) && Meaning() == old(Meaning())[h := old(Meaning())[i]]
    {
      hide Owned;
      hide Conserved;
      hide Count;
      assert i in Meaning();
      assert LabelAt(cells[i], acts, rank, i);
      if cells[i].next.Null? {
        Empties(cells, multiset{}, log, created);
        h := Declare(Null, multiset{});
        return;
      }
      if cells[i].next.Raw? {
        Box(i, multiset{});
      }
      h := ShareNode(i);
    }

    /** One more variable, and one more reference to the node. */
    method ShareNode(i: nat) returns (h: nat)
      requires Valid() && Alive(i) && cells[i].next.Impl?
      modifies `cells, `acts, `rank
      ensures Valid() && h !in old(Meaning()) && Meaning() == old(Meaning())[h := old(Meaning())[i]]
    {
      hide Owned;
      hide Conserved;
      hide Count;
      assert i in Meaning();
      assert LabelAt(cells[i], acts, rank, i);
      InRange(cells, multiset{}, i);
      var id := cells[i].next.id;
      AddRef(cells, multiset{}, log, created, id);
      LabelledLess(cells, acts, rank, id, cells[id].(refs := cells[id].refs + 1));
      cells := cells[id := cells[id].(refs := cells[id].refs + 1)];
      h := Declare(Impl(id), multiset{});
    }

    /** `append` reached the end of the chain: `d` becomes its tail. */
    method AppendEnd(at: nat, d: Ptr, ghost walked: set<nat>)
      requires Sound(multiset{d}) && Exclusive(cells, walked, at) && Outside(d, walked)
      requires cells[at].next == Null
      modifies `cells, `acts, `rank
      ensures Valid() && cells == old(cells)[at := WithNext(old(cells)[at], d)]
      ensures acts == Widen(old(acts), walked, Behind(old(acts), d))
    {
      hide Owned;
      hide Conserved;
      hide Count;
      assert multiset{} + multiset{d} == multiset{d};
      assert Behind(acts, d) == Behind(acts, Null) + Behind(acts, d);
      Relabel(cells, acts, rank, walked, at, d, Behind(acts, d));
      Swap(cells, multiset{}, log, created, at, d);
      cells := cells[at := WithNext(cells[at], d)];
      acts, rank := Widen(acts, walked, Behind(acts, d)), Raise(rank, walked, Rank(rank, d));
      Empties(cells, multiset{}, log, created);
    }

    /** `append` met a node with other owners: a new node takes its place and holds it and `d`. */
    method AppendShared(at: nat, d: Ptr, ghost walked: set<nat>)
      requires Sound(multiset{d}) && Exclusive(cells, walked, at) && Outside(d, walked)
      requires Outside(cells[at].next, walked)
      modifies `cells, `acts, `rank
      ensures Valid()
      ensures cells == (old(cells) + [Node(1, old(cells)[at].next, Held(d))])
                       [at := WithNext(old(cells)[at], Impl(|old(cells)|))]
      ensures |acts| == |old(acts)| + 1
      ensures forall k :: 0 <= k < |old(acts)| ==>
                acts[k] == if k in walked then old(acts)[k] + Behind(old(acts), d) else old(acts)[k]
    {
      hide Conserved;
      hide Count;
      hide Owned;
      hide Labelled;
      var q, n := cells[at].next, |cells|;
      var c := Node(1, q, Held(d));
      ghost var acts' := acts + [Behind(acts, d) + Behind(acts, q)];
      ghost var height := Rank(rank, d) + Rank(rank, q) + 1;
      assert multiset{} + multiset{d} == multiset{d};
      LabelShared(cells, acts, rank, at, d, walked);
      Interpose(cells, multiset{}, log, created, at, c, multiset{d});
      cells := (cells + [c])[at := WithNext(cells[at], Impl(n))];
      acts, rank := Widen(acts', walked, Behind(acts, d)), Raise(rank + [height], walked, height);
    }

    /** How far `append` has come: `at` is the last of the cells that only `self` leads to. */
    ghost predicate Walking(self: nat, d: Ptr, at: nat, walked: set<nat>)
      reads this
    {
      && Sound(multiset{d}) && Alive(self) && self in walked
      && Exclusive(cells, walked, at) && Outside(d, walked)
      && (forall w :: w in walked && w != self ==> cells[w].Node? && cells[w].refs == 1)
      && Behind(acts, cells[at].next) <= acts[self]
    }

    /** Box keeps all that: the object it puts into a node was reached before. */
    method BoxOnWalk(self: nat, d: Ptr, at: nat, ghost walked: set<nat>)
      requires Walking(self, d, at, walked) && cells[at].next.Raw?
      modifies `cells, `acts, `rank
      ensures Walking(self, d, at, walked) && cells[at].next.Impl?
      ensures Behind(acts, d) == Behind(old(acts), d) && Meaning() == old(Meaning())
      ensures Rank(rank, cells[at].next) == 1
    {
      hide Owned;
      hide Conserved;
      hide Labelled;
      TempInRange(cells, multiset{d}, d);
      ghost var before, reach := cells, acts;
      ExclusiveBox(cells, walked, at, Node(1, Null, Act(cells[at].next.obj)));
      hide Exclusive;
      Box(at, multiset{d});
      assert forall k :: 0 <= k < |before| && k != at ==> cells[k] == before[k];
      assert forall k :: 0 <= k < |reach| ==> acts[k] == reach[k];
    }

    /** The loop of deleter::append, along the part of the chain that `self` owns alone. */
    method Walk(self: nat, d: Ptr) returns (at: nat, next: Ptr, ghost walked: set<nat>)
      requires Sound(multiset{d}) && Alive(self) && d != Null
      modifies `cells, `acts, `rank
      ensures Walking(self, d, at, walked) && cells[at].next == next
      ensures Behind(acts, d) == Behind(old(acts), d) && Meaning() == old(Meaning())
      ensures next == Null || next == d || Outside(next, walked)
      ensures at < |cells| && !cells[at].Freed? && forall w :: w in walked ==> w < |cells|
    {
      hide Owned;
      hide Conserved;
      hide Labelled;
      hide Count;
      at, next, walked := self, cells[self].next, {self};
      StartOfChain(cells, multiset{d}, self);
      LabelOfHandle(cells, acts, rank, self);
      while next != Null && next != d
        invariant Walking(self, d, at, walked) && cells[at].next == next
        invariant Behind(acts, d) == Behind(old(acts), d) && Meaning() == old(Meaning())
        decreases Rank(rank, next)
      {
        if next.Raw? {
          BoxOnWalk(self, d, at, walked);
          next := cells[at].next;
        }
        InRange(cells, multiset{d}, at);
        var id := next.id;
        if cells[id].refs != 1 {
          return;
        }
        ExtendChain(cells, multiset{d}, walked, at, id);
        LabelOfNode(cells, acts, rank, id);
        walked, at, next := walked + {id}, id, cells[id].next;
      }
    }

    method AppendPtr(self: nat, d: Ptr)
      requires Sound(multiset{d}) && Alive(self) && d != Null
      modifies `cells, `log, `acts, `rank
      ensures Valid() && log == old(log)
      ensures Meaning() == old(Meaning())[self := old(Meaning())[self] + Behind(old(acts), d)]
    {
      hide Owned;
      hide Conserved;
      hide Labelled;
      hide Count;
      hide Exclusive;
      hide Fields;
      assert self in Meaning();
      var at, next, walked := Walk(self, d);
      if next == d {
        // Already appended: the chain holds it, so dropping `d` carries nothing out.
        HeldTwice(cells, multiset{d}, log, created, at, d);
        assert multiset{} + multiset{d} == multiset{d};
        assert Meaning()[self] == Meaning()[self] + Behind(acts, d);
        Release(d, multiset{});
      } else if next != Null {
        AppendShared(at, d, walked);
      } else {
        AppendEnd(at, d, walked);
      }
    }

    /** deleter::append(deleter d), with `d` moved from the variable `j`. */
    method Append(i: nat, j: nat)
      requires Valid() && Alive(i) && Alive(j)
      modifies `cells, `log, `acts, `rank
      ensures Valid() && log == old(log)
      ensures Meaning() == old(Meaning())[j := {}][i := old(Meaning())[i] + old(Meaning())[j]]
    {
      hide Owned;
      hide Conserved;
      hide Labelled;
      assert i in Meaning() && j in Meaning();
      var d := Take(j, multiset{});
      assert multiset{} + multiset{d} == multiset{d};
      if d == Null {
        Empties(cells, multiset{}, log, created);
        assert old(Meaning())[i] + {} == old(Meaning())[i];
        return;
      }
      ghost var gained := old(Meaning())[j];
      assert {} + gained == gained + gained;
      AppendPtr(i, d);
    }

    /** The end of a deleter variable. */
    method Destroy(h: nat)
      requires Valid() && Alive(h)
      modifies `cells, `log, `acts, `rank
      ensures Valid() && old(log) <= log && Meaning() == old(Meaning()) - {h}
    {
      hide Owned;
      hide Conserved;
      var p := Take(h, multiset{});
      assert multiset{} + multiset{p} == multiset{p};
      Forget(cells, multiset{p}, log, created, acts, rank, h);
      cells := cells[h := Freed];
      Release(p, multiset{});
    }
  }

  /** A new node that points nowhere, hung at the end of the chain, leaves the chain exclusive. */
  lemma ExclusiveBox(cells: seq<Cell>, walked: set<nat>, at: nat, c: Cell)
    requires Exclusive(cells, walked, at) && c.Node? && c.next == Null && c.payload.Act?
    ensures at < |cells| && !cells[at].Freed?
    ensures Exclusive(cells[at := WithNext(cells[at], Impl(|cells|))] + [c], walked, at)
    ensures |cells| !in walked
  {
  }

  lemma LabelOfHandle(cells: seq<Cell>, acts: seq<set<Action>>, rank: seq<nat>, h: nat)
    requires Labelled(cells, acts, rank) && h < |cells| && cells[h].Handle?
    ensures acts[h] == Behind(acts, cells[h].next)
  {
    assert LabelAt(cells[h], acts, rank, h);
  }

  lemma LabelOfNode(cells: seq<Cell>, acts: seq<set<Action>>, rank: seq<nat>, id: nat)
    requires Labelled(cells, acts, rank) && id < |cells| && cells[id].Node?
    ensures Behind(acts, cells[id].next) <= acts[id] && Rank(rank, cells[id].next) < rank[id]
  {
    assert LabelAt(cells[id], acts, rank, id);
  }

  lemma TempInRange(cells: seq<Cell>, temps: multiset<Ptr>, p: Ptr)
    requires Owned(cells, temps) && p in temps
    ensures p.Impl? ==> p.id < |cells| && cells[p.id].Node?
  {
    if p.Impl? {
      assert Owners(cells, temps, p) == Refs(cells, p.id);
    }
  }

  /** A pointer held both by a cell and by a temporary is a counted node with at least two owners. */
  lemma HeldTwice(cells: seq<Cell>, temps: multiset<Ptr>, log: seq<Action>, created: set<Action>, at: nat, p: Ptr)
    requires Owned(cells, temps) && Conserved(cells, temps, log, created)
    requires at < |cells| && !cells[at].Freed? && cells[at].next == p && p in temps && p != Null
    ensures p.Impl? && Refs(cells, p.id) >= 2
  {
    hide Count;
    CountUpdate(cells, at, cells[at], Points(p));
    assert Owners(cells, temps, p) >= 2;
    if p.Raw? {
      HeldOnce(cells, temps, log, created, p.obj);
    } else {
      assert Owners(cells, temps, Impl(p.id)) == Refs(cells, p.id);
    }
  }

  lemma HeldOnce(cells: seq<Cell>, temps: multiset<Ptr>, log: seq<Action>, created: set<Action>, a: Action)
    requires Conserved(cells, temps, log, created)
    ensures Owners(cells, temps, Raw(a)) <= 1
  {
    assert multiset(log)[a] + Owners(cells, temps, Raw(a)) + Count(cells, Carries(a)) == Bit(a in created);
  }

  /** An empty variable can go. */
  lemma Forget(cells: seq<Cell>, temps: multiset<Ptr>, log: seq<Action>, created: set<Action>,
               acts: seq<set<Action>>, rank: seq<nat>, h: nat)
    requires Owned(cells, temps) && Conserved(cells, temps, log, created) && Labelled(cells, acts, rank)
    requires h < |cells| && cells[h] == Handle(Null)
    ensures var after := cells[h := Freed];
            Owned(after, temps) && Conserved(after, temps, log, created) && Labelled(after, acts, rank)
  {
    hide Count;
    var after := cells[h := Freed];
    forall i: nat ensures Owners(after, temps, Impl(i)) == Refs(after, i) {
      CountUpdate(cells, h, Freed, Points(Impl(i)));
      assert Owners(cells, temps, Impl(i)) == Refs(cells, i);
    }
    forall a: Action
      ensures multiset(log)[a] + Owners(after, temps, Raw(a)) + Count(after, Carries(a)) == Bit(a in created) {
      CountUpdate(cells, h, Freed, Points(Raw(a)));
      CountUpdate(cells, h, Freed, Carries(a));
      assert multiset(log)[a] + Owners(cells, temps, Raw(a)) + Count(cells, Carries(a)) == Bit(a in created);
    }
    forall k | 0 <= k < |after| ensures LabelAt(after[k], acts, rank, k) {
      assert LabelAt(cells[k], acts, rank, k);
    }
  }

  /** A new object, held by a temporary. */
  lemma NewRaw(cells: seq<Cell>, temps: multiset<Ptr>, log: seq<Action>, created: set<Action>, a: Action)
    requires Owned(cells, temps) && Conserved(cells, temps, log, created) && a !in created
    ensures Owned(cells, temps + multiset{Raw(a)})
    ensures Conserved(cells, temps + multiset{Raw(a)}, log, created + {a})
  {
    hide Count;
    var held := temps + multiset{Raw(a)};
    forall i: nat ensures Owners(cells, held, Impl(i)) == Refs(cells, i) {
      assert Owners(cells, temps, Impl(i)) == Refs(cells, i);
    }
    forall b: Action
      ensures multiset(log)[b] + Owners(cells, held, Raw(b)) + Count(cells, Carries(b)) == Bit(b in created + {a}) {
      assert multiset(log)[b] + Owners(cells, temps, Raw(b)) + Count(cells, Carries(b)) == Bit(b in created);
    }
  }

  /** A variable, which nothing points to, may be given another pointer. */
  lemma LabelledHandle(cells: seq<Cell>, temps: multiset<Ptr>, acts: seq<set<Action>>, rank: seq<nat>,
                       h: nat, p: Ptr)
    requires Owned(cells, temps) && Labelled(cells, acts, rank)
    requires h < |cells| && cells[h].Handle? && (p in temps || p == Null)
    ensures Labelled(cells[h := Handle(p)], acts[h := Behind(acts, p)], rank[h := Rank(rank, p) + 1])
  {
    hide Count;
    var after, acts', rank' := cells[h := Handle(p)], acts[h := Behind(acts, p)], rank[h := Rank(rank, p) + 1];
    StartOfChain(cells, temps, h);
    forall k | 0 <= k < |after| ensures LabelAt(after[k], acts', rank', k) {
      assert LabelAt(cells[k], acts, rank, k);
    }
  }

  /** Replacing a pointer by one with the same actions behind it, and not higher, changes no label. */
  lemma LabelledSame(cells: seq<Cell>, acts: seq<set<Action>>, rank: seq<nat>, at: nat, p: Ptr)
    requires Labelled(cells, acts, rank) && at < |cells| && !cells[at].Freed?
    requires Behind(acts, p) == Behind(acts, cells[at].next) && Rank(rank, p) <= Rank(rank, cells[at].next)
    ensures Labelled(cells[at := WithNext(cells[at], p)], acts, rank)
  {
    var after := cells[at := WithNext(cells[at], p)];
    forall k | 0 <= k < |after| ensures LabelAt(after[k], acts, rank, k) {
      assert LabelAt(cells[k], acts, rank, k);
    }
  }

  /** A new cell is labelled from what it holds. */
  lemma LabelledSnoc(cells: seq<Cell>, temps: multiset<Ptr>, acts: seq<set<Action>>, rank: seq<nat>,
                     c: Cell, own: set<Action>, height: nat)
    requires Owned(cells, temps) && Labelled(cells, acts, rank)
    requires LabelAt(c, acts + [own], rank + [height], |cells|)
    ensures Labelled(cells + [c], acts + [own], rank + [height])
  {
    hide Count;
    var after, acts', rank' := cells + [c], acts + [own], rank + [height];
    forall k | 0 <= k < |after| ensures LabelAt(after[k], acts', rank', k) {
      if k < |cells| {
        assert LabelAt(cells[k], acts, rank, k);
        if !cells[k].Freed? {
          InRange(cells, temps, k);
        }
      }
    }
  }

  /** No pointer in the arena dangles. */
  lemma InRange(cells: seq<Cell>, temps: multiset<Ptr>, k: nat)
    requires Owned(cells, temps) && k < |cells| && !cells[k].Freed?
    ensures cells[k].next.Impl? ==> cells[k].next.id < |cells| && cells[cells[k].next.id].Node?
    ensures cells[k].Node? && cells[k].payload.Held? && cells[k].payload.inner.Impl? ==>
              cells[k].payload.inner.id < |cells| && cells[cells[k].payload.inner.id].Node?
  {
    hide Count;
    CellOwns(cells, temps, k);
    if cells[k].next.Impl? {
      assert Owners(cells, temps, cells[k].next) == Refs(cells, cells[k].next.id);
    }
    if cells[k].Node? && cells[k].payload.Held? && cells[k].payload.inner.Impl? {
      assert Owners(cells, temps, cells[k].payload.inner) == Refs(cells, cells[k].payload.inner.id);
    }
  }

  lemma TempIsNode(cells: seq<Cell>, temps: multiset<Ptr>, id: nat)
    requires Owned(cells, temps + multiset{Impl(id)})
    ensures id < |cells| && cells[id].Node? && cells[id].refs >= 1
  {
    assert Owners(cells, temps + multiset{Impl(id)}, Impl(id)) == Refs(cells, id);
  }

  /** Freeing a node, or changing only its count, leaves every other label right. */
  lemma LabelledLess(cells: seq<Cell>, acts: seq<set<Action>>, rank: seq<nat>, id: nat, c: Cell)
    requires Labelled(cells, acts, rank) && id < |cells| && cells[id].Node?
    requires c.Freed? || (c.Node? && c.next == cells[id].next && c.payload == cells[id].payload)
    ensures Labelled(cells[id := c], acts, rank)
    ensures Rank(rank, Impl(id)) > Rank(rank, cells[id].next)
    ensures cells[id].payload.Held? ==> Rank(rank, Impl(id)) > Rank(rank, cells[id].payload.inner)
  {
    assert LabelAt(cells[id], acts, rank, id);
    var after := cells[id := c];
    forall k | 0 <= k < |after| ensures LabelAt(after[k], acts, rank, k) {
      assert LabelAt(cells[k], acts, rank, k);
    }
  }

  /** `std::free` on a directly held object. */
  lemma FreeRaw(cells: seq<Cell>, temps: multiset<Ptr>, log: seq<Action>, created: set<Action>, a: Action)
    requires Owned(cells, temps + multiset{Raw(a)}) && Conserved(cells, temps + multiset{Raw(a)}, log, created)
    ensures Owned(cells, temps) && Conserved(cells, temps, log + [a], created)
  {
    hide Count;
    var before := temps + multiset{Raw(a)};
    forall i: nat ensures Owners(cells, temps, Impl(i)) == Refs(cells, i) {
      assert Owners(cells, before, Impl(i)) == Refs(cells, i);
    }
    forall b: Action
      ensures multiset(log + [a])[b] + Owners(cells, temps, Raw(b)) + Count(cells, Carries(b)) == Bit(b in created) {
      assert multiset(log)[b] + Owners(cells, before, Raw(b)) + Count(cells, Carries(b)) == Bit(b in created);
      assert multiset(log + [a]) == multiset(log) + multiset{a};
    }
  }
}
