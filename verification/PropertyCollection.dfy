/**
 A model of `PropertyCollection`: a map from a type identity to one type-erased
 `Property`, with `get`, `assign`, `contains` and `subscribe` routed to the property
 stored under the requested type.

 Type identities are the type parameter `K`. A stored value carries the identity of its
 type, so `assign(v)` is keyed by `v.tag` exactly as the Rust `assign::<T>(v)` is keyed by
 `TypeId::of::<T>()`. The erased box remembers the identity it was created at, and a
 downcast succeeds exactly when that identity is the requested one.
 */
module PropertyCollection {
  import opened Wrappers
  import Slots

  /** A value of the type whose identity is `tag`. */
  datatype Value<K, P> = Value(tag: K, payload: P)

  /** A `Box<dyn Any>` holding a `Property<T>`, where `tag` identifies `T`. */
  datatype Erased<K, P, S> = Erased(tag: K, property: Slots.Property<Value<K, P>, S>)

  datatype Collection<K(==), P, S> = Collection(properties: map<K, Erased<K, P, S>>)

  /** A property typed at `k` holds nothing but values of type `k`. */
  predicate HoldsOnly<K(==), P, S>(p: Slots.Property<Value<K, P>, S>, k: K)
  {
    p.value.Some? ==> p.value.value.tag == k
  }

  /**
   The store invariant: the box under identity `k` is a `Property` of the type `k`
   and holds only values of that type, so the downcast in the lookup never fails.
   */
  predicate Wf<K(==), P, S>(c: Collection<K, P, S>)
  {
    forall k :: k in c.properties ==>
      c.properties[k].tag == k && HoldsOnly(c.properties[k].property, k)
  }

  /** `PropertyCollection::new`: no properties at all. */
  function New<K(==), P, S>(): (c: Collection<K, P, S>)
    ensures c.properties.Keys == {}
    ensures Wf(c)
  {
    Collection(map[])
  }

  /** `downcast_ref` / `downcast_mut`: the property, if the box is typed at `t`. */
  function Downcast<K(==), P, S>(e: Erased<K, P, S>, t: K): (r: Option<Slots.Property<Value<K, P>, S>>)
    ensures r.Some? <==> e.tag == t
    ensures r.Some? ==> r.value == e.property
  {
    if e.tag == t then Some(e.property) else None
  }

  /**
   `get_property` and `get_property_mut`: look up the box under `t` and downcast it.
   Under the store invariant the downcast never fails, so a property is found
   exactly when there is an entry under `t`.
   */
  function GetProperty<K(==), P, S>(c: Collection<K, P, S>, t: K): (r: Option<Slots.Property<Value<K, P>, S>>)
    ensures r.Some? ==> t in c.properties && r.value == c.properties[t].property
    ensures Wf(c) ==> (r.Some? <==> t in c.properties)
    ensures Wf(c) && r.Some? ==> HoldsOnly(r.value, t)
  {
    if t in c.properties then Downcast(c.properties[t], t) else None
  }

  /** The subscribers registered for type `t`; none when there is no property for it. */
  function SubscribersOf<K(==), P, S>(c: Collection<K, P, S>, t: K): seq<S>
  {
    match GetProperty(c, t)
    case Some(p) => p.subscriptions
    case None => []
  }

  /**
   `PropertyCollection::get`: the current value of the property for `t`, or `None` when
   there is no such property or it was only ever subscribed to.
   */
  function Get<K(==), P, S>(c: Collection<K, P, S>, t: K): (r: Option<Value<K, P>>)
    ensures r.Some? ==> Contains(c, t)
    ensures Wf(c) && r.Some? ==> r.value.tag == t
  {
    match GetProperty(c, t)
    case Some(p) => Slots.Get(p)
    case None => None
  }

  /**
   `PropertyCollection::contains`: whether a property for `t` exists, whether or not it
   holds a value.
   */
  function Contains<K(==), P, S>(c: Collection<K, P, S>, t: K): (r: bool)
    ensures r ==> t in c.properties
    ensures Wf(c) ==> (r <==> t in c.properties)
  {
    GetProperty(c, t).Some?
  }

  /**
   `PropertyCollection::assign`: write `v` to the property for its type, calling that
   property's subscribers, or insert a new property holding `v` when there is none.
   Every other entry is left as it was.
   */
  function Assign<K(==), P, S>(c: Collection<K, P, S>, v: Value<K, P>): (r: (Collection<K, P, S>, Slots.Trace<Value<K, P>, S>))
    ensures r.0.properties.Keys == c.properties.Keys + {v.tag}
    ensures Get(r.0, v.tag) == Some(v)
    ensures Contains(r.0, v.tag)
    ensures SubscribersOf(r.0, v.tag) == SubscribersOf(c, v.tag)
    ensures |r.1| == |SubscribersOf(c, v.tag)|
    ensures forall i :: 0 <= i < |SubscribersOf(c, v.tag)| ==> r.1[i] == (SubscribersOf(c, v.tag)[i], v)
    ensures forall k :: k in c.properties && k != v.tag ==> r.0.properties[k] == c.properties[k]
    ensures Wf(c) ==> Wf(r.0)
  {
    match GetProperty(c, v.tag)
    case Some(p) =>
      var written := Slots.Assign(p, v);
      (Collection(c.properties[v.tag := Erased(v.tag, written.0)]), written.1)
    case None =>
      (Collection(c.properties[v.tag := Erased(v.tag, Slots.New(v))]), [])
  }

  /**
   `PropertyCollection::subscribe`: append `s` to the property for `t`, creating an empty
   property for it first when there is none (early subscription). No callback is called,
   and the value for `t` is unchanged.
   */
  function Subscribe<K(==), P, S>(c: Collection<K, P, S>, t: K, s: S): (r: Collection<K, P, S>)
    ensures r.properties.Keys == c.properties.Keys + {t}
    ensures Contains(r, t)
    ensures SubscribersOf(r, t) == SubscribersOf(c, t) + [s]
    ensures Get(r, t) == Get(c, t)
    ensures forall k :: k in c.properties && k != t ==> r.properties[k] == c.properties[k]
    ensures Wf(c) ==> Wf(r)
  {
    match GetProperty(c, t)
    case Some(p) =>
      Collection(c.properties[t := Erased(t, Slots.Subscribe(p, s))])
    case None =>
      Collection(c.properties[t := Erased(t, Slots.Subscribe(Slots.Empty(), s))])
  }

  /** The property a run of writes to type `t` acts on: the stored one, or a fresh empty one. */
  function PropertyFor<K(==), P, S>(c: Collection<K, P, S>, t: K): Slots.Property<Value<K, P>, S>
  {
    match GetProperty(c, t)
    case Some(p) => p
    case None => Slots.Empty()
  }

  /** A caller assigning the values `vs` one after the other. */
  function AssignAll<K(==), P, S>(c: Collection<K, P, S>, vs: seq<Value<K, P>>): (r: (Collection<K, P, S>, Slots.Trace<Value<K, P>, S>))
    ensures r.0.properties.Keys == c.properties.Keys + set v | v in vs :: v.tag
    ensures Wf(c) ==> Wf(r.0)
    decreases |vs|
  {
    if vs == [] then (c, [])
    else
      var first := Assign(c, vs[0]);
      var rest := AssignAll(first.0, vs[1..]);
      assert (set v | v in vs :: v.tag) == {vs[0].tag} + set v | v in vs[1..] :: v.tag;
      (rest.0, first.1 + rest.1)
  }

  /** In a new collection no type has a value or a property. */
  lemma NewIsEmpty<K, P, S>(t: K)
    ensures Get(New<K, P, S>(), t) == None
    ensures !Contains(New<K, P, S>(), t)
    ensures SubscribersOf(New<K, P, S>(), t) == []
  {
  }

  /** Assigning to one type changes what `get` and `contains` report for that type only. */
  lemma AssignIsolation<K, P, S>(c: Collection<K, P, S>, v: Value<K, P>, t: K)
    requires t != v.tag
    ensures Get(Assign(c, v).0, t) == Get(c, t)
    ensures Contains(Assign(c, v).0, t) == Contains(c, t)
  {
  }

  /** Subscribing to one type changes what `get` and `contains` report for that type only. */
  lemma SubscribeIsolation<K, P, S>(c: Collection<K, P, S>, t: K, s: S, u: K)
    requires u != t
    ensures Get(Subscribe(c, t, s), u) == Get(c, u)
    ensures Contains(Subscribe(c, t, s), u) == Contains(c, u)
    ensures SubscribersOf(Subscribe(c, t, s), u) == SubscribersOf(c, u)
  {
  }

  /** Last write wins: of two assignments to the same type, `get` sees the second. */
  lemma LastWriteWins<K, P, S>(c: Collection<K, P, S>, v1: Value<K, P>, v2: Value<K, P>)
    requires v1.tag == v2.tag
    ensures Get(Assign(Assign(c, v1).0, v2).0, v1.tag) == Some(v2)
  {
  }

  /**
   Early subscription on a type with no property creates an empty one holding just that
   callback: `get` still finds nothing, but `contains` is already true.
   */
  lemma EarlySubscription<K, P, S>(c: Collection<K, P, S>, t: K, s: S)
    requires Wf(c) && t !in c.properties
    ensures Get(Subscribe(c, t, s), t) == None
    ensures Contains(Subscribe(c, t, s), t)
    ensures SubscribersOf(Subscribe(c, t, s), t) == [s]
  {
  }

  /**
   Subscribing does not fire retroactively for a value already present; the next
   assignment calls all earlier subscribers, in order, and the new one last.
   */
  lemma SubscribeThenAssign<K, P, S>(c: Collection<K, P, S>, s: S, v: Value<K, P>)
    ensures Get(Subscribe(c, v.tag, s), v.tag) == Get(c, v.tag)
    ensures Assign(Subscribe(c, v.tag, s), v).1 == Assign(c, v).1 + [(s, v)]
  {
  }

  /**
   The store is a faithful router: a run of assignments to one type behaves exactly as
   the same run of writes on the property for that type, and leaves that property behind.
   */
  lemma {:induction false} AssignAllRoutes<K, P, S>(c: Collection<K, P, S>, t: K, vs: seq<Value<K, P>>)
    requires Wf(c)
    requires forall i :: 0 <= i < |vs| ==> vs[i].tag == t
    ensures AssignAll(c, vs).1 == Slots.Writes(PropertyFor(c, t), vs).1
    ensures vs != [] ==> GetProperty(AssignAll(c, vs).0, t) == Some(Slots.Writes(PropertyFor(c, t), vs).0)
    decreases |vs|
  {
    if vs != [] {
      var first := Assign(c, vs[0]);
      var slot := Slots.Assign(PropertyFor(c, t), vs[0]);
      assert GetProperty(first.0, t) == Some(slot.0);
      assert first.1 == slot.1;
      assert PropertyFor(first.0, t) == slot.0;
      AssignAllRoutes(first.0, t, vs[1..]);
    }
  }

  /**
   Early subscription, then `n` assignments: the callback fires `n` times, the `i`-th
   time with the `i`-th assigned value, and no other callback fires.
   */
  lemma EarlySubscribeThenAssigns<K, P, S>(t: K, s: S, vs: seq<Value<K, P>>)
    requires forall i :: 0 <= i < |vs| ==> vs[i].tag == t
    ensures |AssignAll(Subscribe(New<K, P, S>(), t, s), vs).1| == |vs|
    ensures forall i :: 0 <= i < |vs| ==> AssignAll(Subscribe(New<K, P, S>(), t, s), vs).1[i] == (s, vs[i])
  {
    var c := Subscribe(New<K, P, S>(), t, s);
    AssignAllRoutes(c, t, vs);
    Slots.SoleSubscriberTrace(PropertyFor(c, t), s, vs);
  }
}
