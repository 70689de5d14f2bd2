/** The client-side reactive store (client/index.tsx): a signal holds a
    value and a set of listeners and notifies them only when a new value
    differs from the current one; the store keeps one signal per key and
    is itself a single shared instance. */
module Signals {
  import opened Wrappers

  /** A signal over values `T` with listeners `L`. The listeners are a
      JavaScript `Set`: no duplicates, visited in insertion order. */
  datatype Signal<T, L> = Signal(value: T, listeners: seq<L>)

  ghost predicate NoDuplicates<L>(ls: seq<L>) {
    forall i, j :: 0 <= i < j < |ls| ==> ls[i] != ls[j]
  }

  function NewSignal<T, L>(init: T): (s: Signal<T, L>)
    ensures s.value == init && s.listeners == []
  {
    Signal(init, [])
  }

  /** One listener call: the listener and the value it receives. */
  datatype Call<T, L> = Call(listener: L, value: T)

  /** The calls `notify` makes, one per listener in order. */
  function Notify<T, L>(ls: seq<L>, v: T): (calls: seq<Call<T, L>>)
    ensures |calls| == |ls| && forall i :: 0 <= i < |ls| ==> calls[i] == Call(ls[i], v)
  {
    seq(|ls|, i requires 0 <= i < |ls| => Call(ls[i], v))
  }

  /** `set(newValue)`: a value that differs (`!==`) replaces the current
      one and notifies every listener with it; an equal one does nothing. */
  function Set<T(==), L>(s: Signal<T, L>, v: T): (r: (Signal<T, L>, seq<Call<T, L>>))
    ensures r.0.value == v && r.0.listeners == s.listeners
    ensures v == s.value ==> r.1 == []
    ensures v != s.value ==> |r.1| == |s.listeners| && forall i :: 0 <= i < |r.1| ==> r.1[i] == Call(s.listeners[i], v)
  {
    if v != s.value then (s.(value := v), Notify(s.listeners, v)) else (s, [])
  }

  /** `subscribe`: adding a listener already present changes nothing. */
  function Subscribe<T, L(==, !new)>(s: Signal<T, L>, l: L): (r: Signal<T, L>)
    ensures r.value == s.value
    ensures l in r.listeners
    ensures forall x :: x in r.listeners <==> x in s.listeners || x == l
    ensures NoDuplicates(s.listeners) ==> NoDuplicates(r.listeners)
  {
    if l in s.listeners then s else s.(listeners := s.listeners + [l])
  }

  /** The listeners without `l`, others in their order. */
  function Without<L(==, !new)>(ls: seq<L>, l: L): (r: seq<L>)
    ensures forall x :: x in r <==> x in ls && x != l
    ensures NoDuplicates(ls) ==> NoDuplicates(r)
    ensures |r| <= |ls|
  {
    if |ls| == 0 then []
    else
      var rest := Without(ls[1..], l);
      WithoutCons(ls, l, rest);
      if ls[0] == l then rest else [ls[0]] + rest
  }

  lemma WithoutCons<L(!new)>(ls: seq<L>, l: L, rest: seq<L>)
    requires |ls| > 0
    requires forall x :: x in rest <==> x in ls[1..] && x != l
    requires NoDuplicates(ls[1..]) ==> NoDuplicates(rest)
    ensures var r := if ls[0] == l then rest else [ls[0]] + rest;
      && (forall x :: x in r <==> x in ls && x != l)
      && (NoDuplicates(ls) ==> NoDuplicates(r))
  {
    assert forall x :: x in ls <==> x == ls[0] || x in ls[1..];
    if NoDuplicates(ls) {
      assert NoDuplicates(ls[1..]) by {
        forall i, j | 0 <= i < j < |ls[1..]| ensures ls[1..][i] != ls[1..][j] {
          assert ls[1..][i] == ls[i + 1] && ls[1..][j] == ls[j + 1];
        }
      }
      if ls[0] != l {
        var r := [ls[0]] + rest;
        assert ls[0] !in ls[1..];
        forall i, j | 0 <= i < j < |r| ensures r[i] != r[j] {
          if i == 0 { assert r[j] in rest; } else { assert r[i] == rest[i - 1] && r[j] == rest[j - 1]; }
        }
      }
    }
  }

  /** `unsubscribe`: the listener is gone, the others stay. */
  function Unsubscribe<T, L(==, !new)>(s: Signal<T, L>, l: L): (r: Signal<T, L>)
    ensures r.value == s.value
    ensures forall x :: x in r.listeners <==> x in s.listeners && x != l
    ensures NoDuplicates(s.listeners) ==> NoDuplicates(r.listeners)
  {
    s.(listeners := Without(s.listeners, l))
  }

  /** `get` returns the last value `set` accepted. */
  lemma GetAfterSet<T, L>(s: Signal<T, L>, v: T)
    ensures Set(s, v).0.value == v
  {
  }

  /** Subscribing twice is the same as subscribing once. */
  lemma SubscribeIdempotent<T, L(!new)>(s: Signal<T, L>, l: L)
    ensures Subscribe(Subscribe(s, l), l) == Subscribe(s, l)
  {
  }

  /** After `unsubscribe`, a change no longer calls the listener. */
  lemma UnsubscribedNotCalled<T, L(!new)>(s: Signal<T, L>, l: L, v: T)
    ensures forall c :: c in Set(Unsubscribe(s, l), v).1 ==> c.listener != l
  {
    var u := Unsubscribe(s, l);
    forall c | c in Set(u, v).1 ensures c.listener != l {
      var calls := Set(u, v).1;
      var i :| 0 <= i < |calls| && calls[i] == c;
      assert c.listener == u.listeners[i] && u.listeners[i] in u.listeners;
    }
  }

  /** A listener subscribed before a change is called once with the new
      value. */
  lemma SubscribedCalledOnce<T, L(!new)>(s: Signal<T, L>, l: L, v: T)
    requires NoDuplicates(s.listeners) && v != s.value
    ensures var calls := Set(Subscribe(s, l), v).1;
      exists i :: 0 <= i < |calls| && calls[i] == Call(l, v) && forall j :: 0 <= j < |calls| && j != i ==> calls[j].listener != l
  {
    var t := Subscribe(s, l);
    var calls := Set(t, v).1;
    var i :| 0 <= i < |t.listeners| && t.listeners[i] == l;
    assert calls[i] == Call(l, v);
    forall j | 0 <= j < |calls| && j != i ensures calls[j].listener != l {
      assert calls[j].listener == t.listeners[j];
    }
  }

  /** The store: one signal per key. */
  datatype Store<T, L> = Store(signals: map<string, Signal<T, L>>)

  /** `getSignal(key, init)`: the existing signal, or a new one holding
      `init` that is kept for later calls. */
  function GetSignal<T, L>(st: Store<T, L>, key: string, init: T): (r: (Store<T, L>, Signal<T, L>))
    ensures key in st.signals ==> r == (st, st.signals[key])
    ensures key !in st.signals ==> r.1 == NewSignal(init) && r.0.signals == st.signals[key := r.1]
  {
    if key !in st.signals then
      var s := NewSignal(init);
      (Store(st.signals[key := s]), s)
    else (st, st.signals[key])
  }

  /** `setSignal(key, value)`: sets an existing signal; an unknown key is
      left alone and no signal is made for it. */
  function SetSignal<T(==), L>(st: Store<T, L>, key: string, v: T): (r: (Store<T, L>, seq<Call<T, L>>))
    ensures key !in st.signals ==> r == (st, [])
    ensures key in st.signals ==> r.0.signals == st.signals[key := Set(st.signals[key], v).0] && r.1 == Set(st.signals[key], v).1
    ensures r.0.signals.Keys == st.signals.Keys
  {
    if key in st.signals then
      var (s, calls) := Set(st.signals[key], v);
      (Store(st.signals[key := s]), calls)
    else (st, [])
  }

  /** A second `getSignal` returns the first one's signal and ignores its
      own initial value. */
  lemma GetSignalOnce<T, L>(st: Store<T, L>, key: string, a: T, b: T)
    ensures var (st1, s1) := GetSignal(st, key, a);
      GetSignal(st1, key, b) == (st1, s1)
  {
  }

  /** `getSignal` after `setSignal` on an existing key sees the new
      value. */
  lemma SetThenGet<T, L>(st: Store<T, L>, key: string, init: T, v: T)
    ensures var (st1, _) := GetSignal(st, key, init);
      GetSignal(SetSignal(st1, key, v).0, key, init).1.value == v
  {
  }

  /** `getInstance`: the shared store, made on the first call. `inst` is
      the static field. */
  function GetInstance<T, L>(inst: Option<Store<T, L>>): (r: (Option<Store<T, L>>, Store<T, L>))
    ensures r.0 == Some(r.1)
    ensures inst.Some? ==> r.1 == inst.value
    ensures inst.None? ==> r.1.signals == map[]
  {
    match inst
    case Some(s) => (inst, s)
    case None => (Some(Store(map[])), Store(map[]))
  }

  /** Every call after the first returns the same store. */
  lemma InstanceIsShared<T, L>(inst: Option<Store<T, L>>)
    ensures var (i1, s1) := GetInstance(inst); GetInstance(i1) == (i1, s1)
  {
  }
}
