/**
 The unit tests of `property.rs` and `property_collection.rs`, stated as facts about the
 model. Rust types are tags of `RustType`; every payload is an integer; the single
 counting callback of the subscription tests is the identifier `Counter`.
 */
module Scenarios {
  import opened Wrappers
  import Slots
  import PC = PropertyCollection

  /** The types the tests store, each with its own type identity. */
  datatype RustType = I32 | U32 | RefI32 | Str | MyInt

  /** The callbacks the tests register. */
  datatype Callback = Counter

  type Store = PC.Collection<RustType, int, Callback>

  function V(t: RustType, n: int): PC.Value<RustType, int>
  {
    PC.Value(t, n)
  }

  /** `test_empty_property_*` and `test_new_property_*`. */
  lemma PropertyNewAndEmpty()
    ensures Slots.Get(Slots.Empty<int, Callback>()) == None
    ensures Slots.Get(Slots.New<int, Callback>(42)) == Some(42)
  {
  }

  /** `test_assign_property_*`: each assignment replaces the value. */
  lemma PropertyAssignSequence()
    ensures var p0 := Slots.New<int, Callback>(42);
            var p1 := Slots.Assign(p0, 99).0;
            var p2 := Slots.Assign(p1, 11).0;
            Slots.Get(p1) == Some(99) && Slots.Get(p2) == Some(11)
  {
  }

  /**
   `test_subscribe_property_*`: equal values written two or three times fire the counter as
   often, and every call receives 11.
   */
  lemma PropertySubscribeCounts()
    ensures var p := Slots.Subscribe(Slots.New<int, Callback>(42), Counter);
            && Slots.Writes(p, [11, 11]).1 == [(Counter, 11), (Counter, 11)]
            && Slots.Writes(p, [11, 11, 11]).1 == [(Counter, 11), (Counter, 11), (Counter, 11)]
            && Slots.Fired(Slots.Writes(p, [11, 11]).1, Counter) == 2
            && Slots.Fired(Slots.Writes(p, [11, 11, 11]).1, Counter) == 3
  {
    var p := Slots.Subscribe(Slots.New<int, Callback>(42), Counter);
    assert [11, 11] == seq(2, _ => 11);
    assert [11, 11, 11] == seq(3, _ => 11);
    Slots.EqualWritesFire(p, 11, 2, Counter);
    Slots.EqualWritesFire(p, 11, 3, Counter);
  }

  /**
   `test_assign_get_property_native`: a later `i32` replaces the earlier one, and a `&i32`
   is stored separately from the `i32`.
   */
  lemma AssignGetNative()
    ensures var c1 := PC.Assign(PC.New<RustType, int, Callback>(), V(I32, 42)).0;
            var c2 := PC.Assign(c1, V(I32, 11)).0;
            var c3 := PC.Assign(c2, V(RefI32, 99)).0;
            && PC.Get(c1, I32) == Some(V(I32, 42)) && PC.Get(c1, U32) == None && PC.Get(c1, Str) == None
            && PC.Get(c2, I32) == Some(V(I32, 11)) && PC.Get(c2, U32) == None && PC.Get(c2, Str) == None
            && PC.Get(c3, I32) == Some(V(I32, 11)) && PC.Get(c3, RefI32) == Some(V(RefI32, 99))
            && PC.Get(c3, U32) == None && PC.Get(c3, Str) == None
  {
  }

  /** `test_assign_get_property_newtype`: a newtype is stored apart from the type it wraps. */
  lemma AssignGetNewtype()
    ensures var c := PC.Assign(PC.New<RustType, int, Callback>(), V(MyInt, 42)).0;
            PC.Get(c, MyInt) == Some(V(MyInt, 42)) && PC.Get(c, I32) == None && PC.Get(c, U32) == None
  {
  }

  /** `test_contains_property_native` and `test_contains_property_newtype`. */
  lemma ContainsAfterAssign()
    ensures !PC.Contains(PC.New<RustType, int, Callback>(), I32)
    ensures var c := PC.Assign(PC.Assign(PC.New<RustType, int, Callback>(), V(I32, 42)).0, V(RefI32, 42)).0;
            PC.Contains(c, I32) && !PC.Contains(c, Str)
    ensures var c := PC.Assign(PC.New<RustType, int, Callback>(), V(MyInt, 42)).0;
            PC.Contains(c, MyInt) && !PC.Contains(c, I32) && !PC.Contains(c, Str)
  {
  }

  /** `test_early_subscribe`: subscribe first; each of two assignments fires the counter once with 11. */
  lemma EarlySubscribeCounts()
    ensures var c0 := PC.Subscribe(PC.New<RustType, int, Callback>(), I32, Counter);
            var a1 := PC.Assign(c0, V(I32, 11));
            var a2 := PC.Assign(a1.0, V(I32, 11));
            a1.1 == [(Counter, V(I32, 11))] && a2.1 == [(Counter, V(I32, 11))]
  {
  }

  /**
   `test_subscribe`: an assignment before the subscription fires nothing, subscribing
   fires nothing, and each later assignment fires the counter once.
   */
  lemma SubscribeAfterAssignCounts()
    ensures var a0 := PC.Assign(PC.New<RustType, int, Callback>(), V(I32, 11));
            var c1 := PC.Subscribe(a0.0, I32, Counter);
            var a1 := PC.Assign(c1, V(I32, 11));
            var a2 := PC.Assign(a1.0, V(I32, 11));
            a0.1 == [] && a1.1 == [(Counter, V(I32, 11))] && a2.1 == [(Counter, V(I32, 11))]
  {
  }
}
