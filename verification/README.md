# dynp property store, modelled in Dafny

`dynp` is a type-indexed property store. A `PropertyCollection` keeps at most one
`Property<T>` per Rust type `T`, keyed by `TypeId::of::<T>()`. Each `Property<T>` holds an
optional value of type `T` and an ordered list of callbacks. Every `assign` replaces the
value and then calls each callback, first registered first, with the new value.
`subscribe` appends a callback. When no property exists yet for the type, `subscribe`
creates an empty one first ("early subscription").

The model is functional:

- `Wrappers.dfy`: `Option`, the Rust `Option`.
- `Slots.dfy` models `src/property.rs`. `Property<T, S>` is a value plus a sequence of
  callback identifiers `S`. A write returns the updated property and a notification trace
  of `(callback, value)` pairs, one per callback invocation, in call order.
- `PropertyCollection.dfy` models `src/property_collection.rs`. A type identity is the type
  parameter `K`. A stored value is `Value(tag, payload)`, and `tag` is its type. The
  type-erased box is `Erased(tag, property)`, where `tag` records the type the box was
  created at. A downcast succeeds exactly when that tag is the requested one. The store is
  a `map<K, Erased>`. Its invariant `Wf` says that the box under `k` is typed at `k` and
  holds only values tagged `k`, so the lookup's downcast never fails.
- `Scenarios.dfy` restates the unit tests of both files for concrete types
  (`i32`, `u32`, `&i32`, `String`, the newtype `MyInt`).

The model follows this version of the code:

- `get` returns an `Option`. There are no `NotFound` or `TypeMismatch` errors.
- `contains` is true as soon as a property exists for the type, even an empty one created
  by `subscribe`.
- `assign` takes the stored type itself. There is no conversion from a borrowed form.

When the downcast fails (unreachable under the invariant), `assign` and `subscribe` insert
a fresh property and replace the entry, as `HashMap::insert` does. The model does the same.

## Model

| member | source | states |
|---|---|---|
| `Slots.New` | src/property.rs:26-32 | a new property reads back the given value and has no subscribers |
| `Slots.Empty` | src/property.rs:34-39 | an empty property reads back nothing and has no subscribers |
| `Slots.Get` | src/property.rs:42-44 | reading returns the stored value when there is one and `None` otherwise |
| `Slots.Notify` | src/property.rs:50-53 | the notification loop calls every subscriber once, in list order, each with the same value |
| `Slots.Assign` | src/property.rs:46-54 | after a write, `get` returns the new value whether the property was empty or full; the subscriber list is unchanged; subscriber `i` is the `i`-th call and receives the new value |
| `Slots.Subscribe` | src/property.rs:66-68 | the callback is appended at the end, the value is unchanged, and no trace is produced |
| `Slots.Writes` | src/property.rs:89-98 | over a run of writes the subscriber list stays the same; no writes leaves the property untouched and calls nothing |
| `Slots.WritesLastWins` | src/property.rs:89-98 | after a non-empty run of writes the property holds the last value written |
| `Slots.SubscribeThenAssign` | src/property.rs:46-68 | subscribing does not change the value; the next write calls the old subscribers as before and then the new one, once |
| `Slots.AssignFiresEachOnce` | src/property.rs:50-53 | one write calls exactly the registered callbacks, in registration order, each as often as it is registered |
| `Slots.WritesFireCount` | src/property.rs:101-117 | over `n` writes each callback fires `n` times per registration, whatever the values: notification is per write, not per change |
| `Slots.EqualWritesFire` | src/property.rs:148-165 | writing an equal value `n` times fires each subscriber `n` times and leaves that value stored |
| `Slots.WritesSnoc` | src/property.rs:46-54 | a further write keeps the earlier trace and appends exactly that write's notifications |
| `Slots.SoleSubscriberTrace` | src/property.rs:101-117 | with one subscriber, the `i`-th write makes the `i`-th call, with the `i`-th value |
| `PropertyCollection.New` | src/property_collection.rs:13-17 | a new collection has no properties and satisfies the store invariant |
| `PropertyCollection.Downcast` | src/property_collection.rs:33-34 | the downcast succeeds exactly when the box was created for the requested type, and then yields the stored property |
| `PropertyCollection.GetProperty` | src/property_collection.rs:26-56 | a found property is the one stored under the key; under the invariant a property is found exactly when the key is present, and it holds only values of that type |
| `PropertyCollection.Get` | src/property_collection.rs:66-72 | a value is returned only when a property exists, and under the invariant it has the requested type |
| `PropertyCollection.Contains` | src/property_collection.rs:104-106 | under the invariant, true exactly when a property exists under the key, empty or not |
| `PropertyCollection.Assign` | src/property_collection.rs:85-97 | the key set gains at most the value's type; `get` for that type returns the value; its subscribers are kept and each is called once, in order, with the value; every other entry is unchanged; the invariant is preserved |
| `PropertyCollection.Subscribe` | src/property_collection.rs:141-158 | the key set gains at most the type; the callback is appended to that type's subscribers; the value is unchanged; every other entry is unchanged; the invariant is preserved |
| `PropertyCollection.AssignAll` | src/property_collection.rs:85-97 | a run of assignments only adds the keys of the assigned types and preserves the invariant |
| `PropertyCollection.NewIsEmpty` | src/property_collection.rs:13-17 | in a new collection `get` is `None`, `contains` is false and there are no subscribers, for every type |
| `PropertyCollection.AssignIsolation` | src/property_collection.rs:176-206 | assigning a value of one type leaves `get` and `contains` of every other type unchanged |
| `PropertyCollection.SubscribeIsolation` | src/property_collection.rs:141-158 | subscribing to one type leaves `get`, `contains` and the subscribers of every other type unchanged |
| `PropertyCollection.LastWriteWins` | src/property_collection.rs:176-186 | of two assignments to one type, `get` returns the second |
| `PropertyCollection.EarlySubscription` | src/property_collection.rs:145-157 | subscribing to an absent type creates an empty property with exactly that callback: `get` is `None`, `contains` is true |
| `PropertyCollection.SubscribeThenAssign` | src/property_collection.rs:254-280 | subscribing after a value exists does not change it; the next assignment calls the old subscribers and then the new one |
| `PropertyCollection.AssignAllRoutes` | src/property_collection.rs:85-97 | a run of assignments to one type produces the same trace and leaves the same property as the same writes on that type's property (or on an empty one) |
| `PropertyCollection.EarlySubscribeThenAssigns` | src/property_collection.rs:231-251 | subscribe on a new collection, then `n` assignments: the callback fires `n` times, the `i`-th time with the `i`-th value, and nothing else fires |
| `Scenarios.PropertyNewAndEmpty` | src/property.rs:76-86 | an empty property reads `None`; a new one reads its value |
| `Scenarios.PropertyAssignSequence` | src/property.rs:88-98 | 42, then 99, then 11: each assignment replaces the value |
| `Scenarios.PropertySubscribeCounts` | src/property.rs:100-165 | two writes of 11 call the subscriber twice and three writes three times, and every call receives 11 |
| `Scenarios.AssignGetNative` | src/property_collection.rs:175-196 | `i32` keeps the latest of its values; `&i32` is stored separately; `u32` and `String` stay absent |
| `Scenarios.AssignGetNewtype` | src/property_collection.rs:198-206 | a `MyInt` is stored apart from `i32` and `u32` |
| `Scenarios.ContainsAfterAssign` | src/property_collection.rs:208-228 | `contains` is false when new and true only for the assigned types |
| `Scenarios.EarlySubscribeCounts` | src/property_collection.rs:230-251 | after an early subscription, each of two assignments fires the callback once with 11 |
| `Scenarios.SubscribeAfterAssignCounts` | src/property_collection.rs:253-280 | an assignment before the subscription fires nothing; each later one fires the callback once |

## Left out

- `src/lib.rs` holds only module declarations and a re-export, with no logic.
- Callback bodies are not modelled. Callbacks are opaque identifiers, and their calls are recorded as a trace.
- A callback that calls back into the property or the store is not modelled, because callbacks have no behaviour here.
- A panic raised inside a callback is not modelled.
- `TypeId`, `Any`, `Box<dyn Any>` and `downcast_ref`/`downcast_mut` are replaced by a type tag and a tag comparison. `HashMap` hashing is replaced by a Dafny `map`.
- `get_property` and `get_property_mut` differ only in borrowing. Both are the single function `PropertyCollection.GetProperty`; an update returns a new collection.
- The `Arc`/`Mutex` counters of the tests are replaced by counting a callback's entries in the trace.
- The `Debug` derive and the `println!` of the doc examples are not modelled.
