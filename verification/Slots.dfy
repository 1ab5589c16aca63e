/**
 A model of `Property<T>`: a single optional value of one fixed type together with
 the ordered list of callbacks that are run on every write.

 Callbacks are opaque identifiers of type `S`. Running them is not modelled; instead a
 write returns a notification trace, one `(callback, value)` pair per invocation, in
 the order the invocations happen.
 */
module Slots {
  import opened Wrappers

  datatype Property<T, S> = Property(value: Option<T>, subscriptions: seq<S>)

  /** The callback invocations of one or more writes, in call order. */
  type Trace<T, S> = seq<(S, T)>

  /** `Property::new`: a property that already holds `v` and has no subscribers. */
  function New<T, S>(v: T): (p: Property<T, S>)
    ensures Get(p) == Some(v)
    ensures p.subscriptions == []
  {
    Property(Some(v), [])
  }

  /** `Property::empty`: a property with neither a value nor subscribers. */
  function Empty<T, S>(): (p: Property<T, S>)
    ensures Get(p) == None
    ensures p.subscriptions == []
  {
    Property(None, [])
  }

  /** `Property::get`: the current value, if any. */
  function Get<T, S>(p: Property<T, S>): (r: Option<T>)
    ensures r.None? <==> p.value.None?
    ensures r.Some? ==> p.value == Some(r.value)
  {
    p.value
  }

  /** The loop over `subscriptions`: every callback, first to last, is handed `v`. */
  function Notify<T, S>(subs: seq<S>, v: T): (tr: Trace<T, S>)
    ensures |tr| == |subs|
    ensures forall i :: 0 <= i < |subs| ==> tr[i] == (subs[i], v)
  {
    if subs == [] then [] else [(subs[0], v)] + Notify(subs[1..], v)
  }

  /**
   `Property::assign`: the value is replaced unconditionally, then every subscriber is
   called once, in registration order, with the value just stored.
   */
  function Assign<T, S>(p: Property<T, S>, v: T): (r: (Property<T, S>, Trace<T, S>))
    ensures Get(r.0) == Some(v)
    ensures r.0.subscriptions == p.subscriptions
    ensures |r.1| == |p.subscriptions|
    ensures forall i :: 0 <= i < |p.subscriptions| ==> r.1[i] == (p.subscriptions[i], v)
  {
    (Property(Some(v), p.subscriptions), Notify(p.subscriptions, v))
  }

  /** `Property::subscribe`: the callback goes to the end of the list; nothing is called. */
  function Subscribe<T, S>(p: Property<T, S>, s: S): (r: Property<T, S>)
    ensures Get(r) == Get(p)
    ensures r.subscriptions == p.subscriptions + [s]
  {
    p.(subscriptions := p.subscriptions + [s])
  }

  /** The callbacks of a trace, in call order. */
  function Callers<T, S>(tr: Trace<T, S>): (cs: seq<S>)
    ensures |cs| == |tr|
    ensures forall i :: 0 <= i < |tr| ==> cs[i] == tr[i].0
  {
    seq(|tr|, i requires 0 <= i < |tr| => tr[i].0)
  }

  /** How many times callback `s` was invoked in a trace. */
  function Fired<T, S(==)>(tr: Trace<T, S>, s: S): nat
  {
    multiset(Callers(tr))[s]
  }

  /** Writing the values `vs` one after the other, as a caller does with repeated `assign`. */
  function Writes<T, S>(p: Property<T, S>, vs: seq<T>): (r: (Property<T, S>, Trace<T, S>))
    ensures r.0.subscriptions == p.subscriptions
    ensures vs == [] ==> r.0 == p && r.1 == []
    decreases |vs|
  {
    if vs == [] then (p, [])
    else
      var first := Assign(p, vs[0]);
      var rest := Writes(first.0, vs[1..]);
      (rest.0, first.1 + rest.1)
  }

  /** Last write wins: after a non-empty run of writes the property holds the final value. */
  lemma {:induction false} WritesLastWins<T, S>(p: Property<T, S>, vs: seq<T>)
    requires vs != []
    ensures Get(Writes(p, vs).0) == Some(vs[|vs| - 1])
    decreases |vs|
  {
    if |vs| > 1 {
      WritesLastWins(Assign(p, vs[0]).0, vs[1..]);
    }
  }

  /** A subscriber added to a property that already has a value is not called until the next write. */
  lemma SubscribeThenAssign<T, S>(p: Property<T, S>, s: S, v: T)
    ensures Get(Subscribe(p, s)) == Get(p)
    ensures Assign(Subscribe(p, s), v).1 == Assign(p, v).1 + [(s, v)]
  {
  }

  /** One write calls each registered callback exactly as often as it was registered. */
  lemma AssignFiresEachOnce<T, S>(p: Property<T, S>, v: T, s: S)
    ensures Callers(Assign(p, v).1) == p.subscriptions
    ensures Fired(Assign(p, v).1, s) == multiset(p.subscriptions)[s]
  {
  }

  /** The callers of two traces run one after the other are the two caller lists joined. */
  lemma CallersAppend<T, S>(a: Trace<T, S>, b: Trace<T, S>)
    ensures Callers(a + b) == Callers(a) + Callers(b)
  {
  }

  /**
   Notification is per write, not per change: over a run of writes, callback `s` is
   called once per write for every time it was registered, whatever values are written.
   */
  lemma {:induction false} WritesFireCount<T, S>(p: Property<T, S>, vs: seq<T>, s: S)
    ensures Fired(Writes(p, vs).1, s) == |vs| * multiset(p.subscriptions)[s]
    decreases |vs|
  {
    if vs != [] {
      var first := Assign(p, vs[0]);
      var rest := Writes(first.0, vs[1..]);
      WritesFireCount(first.0, vs[1..], s);
      AssignFiresEachOnce(p, vs[0], s);
      CallersAppend(first.1, rest.1);
      var k := multiset(p.subscriptions)[s];
      calc {
        Fired(Writes(p, vs).1, s);
        multiset(Callers(first.1) + Callers(rest.1))[s];
        multiset(p.subscriptions)[s] + multiset(Callers(rest.1))[s];
        k + (|vs| - 1) * k;
        |vs| * k;
      }
    }
  }

  /** Writing the same value `n` times still calls every subscriber `n` times. */
  lemma EqualWritesFire<T, S>(p: Property<T, S>, v: T, n: nat, s: S)
    ensures Fired(Writes(p, seq(n, _ => v)).1, s) == n * multiset(p.subscriptions)[s]
    ensures n > 0 ==> Get(Writes(p, seq(n, _ => v)).0) == Some(v)
  {
    WritesFireCount(p, seq(n, _ => v), s);
    if n > 0 {
      WritesLastWins(p, seq(n, _ => v));
    }
  }

  /**
   Writes compose in order: one more write leaves everything earlier in the trace as it
   was and appends exactly the notifications of that write, made on the property the
   earlier writes left behind.
   */
  lemma {:induction false} WritesSnoc<T, S>(p: Property<T, S>, vs: seq<T>, v: T)
    ensures Writes(p, vs + [v]).0 == Assign(Writes(p, vs).0, v).0
    ensures Writes(p, vs + [v]).1 == Writes(p, vs).1 + Assign(Writes(p, vs).0, v).1
    decreases |vs|
  {
    if vs == [] {
      assert vs + [v] == [v];
    } else {
      var first := Assign(p, vs[0]);
      var rest := Writes(first.0, vs[1..]);
      var last := Assign(rest.0, v);
      assert (vs + [v])[0] == vs[0];
      assert (vs + [v])[1..] == vs[1..] + [v];
      WritesSnoc(first.0, vs[1..], v);
      AppendAssoc(first.1, rest.1, last.1);
    }
  }

  /**
   Regrouping a three-part trace. Stated apart so that `WritesSnoc` meets this sequence
   equality as one fact instead of re-deriving it element by element.
   */
  lemma AppendAssoc<X>(a: seq<X>, b: seq<X>, c: seq<X>)
    ensures a + (b + c) == (a + b) + c
  {
  }

  /** With a single subscriber, write number `i` calls it exactly once, with the `i`-th value. */
  lemma {:induction false} SoleSubscriberTrace<T, S>(p: Property<T, S>, s: S, vs: seq<T>)
    requires p.subscriptions == [s]
    ensures |Writes(p, vs).1| == |vs|
    ensures forall i :: 0 <= i < |vs| ==> Writes(p, vs).1[i] == (s, vs[i])
    decreases |vs|
  {
    if vs != [] {
      var first := Assign(p, vs[0]);
      var rest := Writes(first.0, vs[1..]);
      SoleSubscriberTrace(first.0, s, vs[1..]);
      var tr := Writes(p, vs).1;
      assert tr == first.1 + rest.1;
      forall i | 0 <= i < |vs| ensures tr[i] == (s, vs[i]) {
        if i > 0 {
          assert vs[1..][i - 1] == vs[i];
        }
      }
    }
  }
}
