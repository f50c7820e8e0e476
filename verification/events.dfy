/**
 * The listener registry every document inherits: a map from event id to the ordered list of
 * callbacks registered for it. Callbacks are opaque values of type Cb; firing an event yields the
 * sequence of calls it makes, in order, rather than running foreign code.
 */
module Events {
  import opened Basics

  /** One invocation of a registered callback with the arguments the event was fired with. */
  datatype Call<Cb, A> = Call(callback: Cb, args: A)

  /** The registry invariant: no event id is mapped to an empty listener list. */
  ghost predicate NoEmptyLists<Id, Cb>(m: map<Id, seq<Cb>>)
  {
    forall id :: id in m ==> |m[id]| > 0
  }

  /** Registry after `addEventListener(id, cb)`. */
  function Added<Id, Cb>(m: map<Id, seq<Cb>>, id: Id, cb: Cb): map<Id, seq<Cb>>
  {
    m[id := (if id in m then m[id] else []) + [cb]]
  }

  /** Position of the first occurrence of x in s. */
  function IndexOf<T(==)>(s: seq<T>, x: T): (i: nat)
    requires x in s
    ensures i < |s| && s[i] == x && x !in s[..i]
  {
    if s[0] == x then 0 else 1 + IndexOf(s[1..], x)
  }

  /** Python's `list.remove(x)` on a list that holds x: drops the first occurrence only. */
  function RemoveFirst<T(==)>(s: seq<T>, x: T): seq<T>
    requires x in s
  {
    s[..IndexOf(s, x)] + s[IndexOf(s, x) + 1..]
  }

  /**
   * Registry after `removeEventListener(id, cb)`, or None when `list.remove` raises ValueError
   * because the id is registered but cb is not in its list.
   */
  function Removed<Id, Cb(==)>(m: map<Id, seq<Cb>>, id: Id, cb: Cb): Option<map<Id, seq<Cb>>>
  {
    if id !in m then Some(m)
    else if cb !in m[id] then None
    else
      var rest := RemoveFirst(m[id], cb);
      if |rest| == 0 then Some(m - {id}) else Some(m[id := rest])
  }

  /** The calls made by running every callback of cbs, in list order, with args. */
  function CallsOf<Cb, A>(cbs: seq<Cb>, args: A): seq<Call<Cb, A>>
  {
    if |cbs| == 0 then [] else [Call(cbs[0], args)] + CallsOf(cbs[1..], args)
  }

  /** The calls `fireEvent(id, args)` makes: none for an id nobody listens to. */
  function Dispatch<Id, Cb, A>(m: map<Id, seq<Cb>>, id: Id, args: A): seq<Call<Cb, A>>
  {
    if id in m then CallsOf(m[id], args) else []
  }

  /** Firing invokes each registration once, in registration order, duplicates included. */
  lemma {:induction false} CallsInRegistrationOrder<Cb, A>(cbs: seq<Cb>, args: A)
    ensures |CallsOf(cbs, args)| == |cbs|
    ensures forall i :: 0 <= i < |cbs| ==> CallsOf(cbs, args)[i] == Call(cbs[i], args)
  {
    if |cbs| > 0 {
      CallsInRegistrationOrder(cbs[1..], args);
    }
  }

  /** An unregistered id invokes nothing. */
  lemma DispatchUnregistered<Id, Cb, A>(m: map<Id, seq<Cb>>, id: Id, args: A)
    requires id !in m
    ensures Dispatch(m, id, args) == []
  {
  }

  /** `addEventListener` appends at the end of that id's list and touches no other id. */
  lemma AddedAppends<Id, Cb>(m: map<Id, seq<Cb>>, id: Id, cb: Cb)
    ensures id in Added(m, id, cb)
    ensures Added(m, id, cb)[id] == (if id in m then m[id] else []) + [cb]
    ensures forall other :: other != id ==>
      (other in Added(m, id, cb) <==> other in m) &&
      (other in m ==> Added(m, id, cb)[other] == m[other])
  {
  }

  /** RemoveFirst drops exactly one copy of x, the first, keeping the order of the rest. */
  lemma RemoveFirstSpec<T>(s: seq<T>, x: T)
    requires x in s
    ensures |RemoveFirst(s, x)| == |s| - 1
    ensures multiset(RemoveFirst(s, x)) == multiset(s) - multiset{x}
    ensures RemoveFirst(s, x)[..IndexOf(s, x)] == s[..IndexOf(s, x)]
    ensures x !in s[..IndexOf(s, x)]
  {
    var i := IndexOf(s, x);
    assert s == s[..i] + [x] + s[i + 1..];
    calc {
      multiset(s);
      multiset(s[..i]) + multiset{x} + multiset(s[i + 1..]);
      multiset(RemoveFirst(s, x)) + multiset{x};
    }
  }

  /** Both registry operations keep every listed id's list non-empty. */
  lemma RegistryInvariant<Id, Cb>(m: map<Id, seq<Cb>>, id: Id, cb: Cb)
    ensures NoEmptyLists(m) ==> NoEmptyLists(Added(m, id, cb))
    ensures NoEmptyLists(m) && Removed(m, id, cb).Some? ==> NoEmptyLists(Removed(m, id, cb).value)
  {
  }

  lemma {:induction false} IndexOfAppended<T>(s: seq<T>, x: T)
    requires x !in s
    ensures IndexOf(s + [x], x) == |s|
  {
    if |s| > 0 {
      assert (s + [x])[1..] == s[1..] + [x];
      IndexOfAppended(s[1..], x);
    }
  }

  /** Adding a callback the id did not hold, then removing it, restores the registry. */
  lemma AddThenRemove<Id, Cb>(m: map<Id, seq<Cb>>, id: Id, cb: Cb)
    requires NoEmptyLists(m)
    requires id in m ==> cb !in m[id]
    ensures Removed(Added(m, id, cb), id, cb) == Some(m)
  {
    var old_ := if id in m then m[id] else [];
    IndexOfAppended(old_, cb);
    assert RemoveFirst(old_ + [cb], cb) == old_;
    if id in m {
      assert |old_| > 0;
      assert Added(m, id, cb)[id := old_] == m;
    } else {
      assert Added(m, id, cb) - {id} == m;
    }
  }

  class EventProducer<Id(==), Cb(==)> {
    var listeners: map<Id, seq<Cb>>

    ghost predicate Valid()
      reads this
    {
      NoEmptyLists(listeners)
    }

    constructor ()
      ensures Valid() && listeners == map[]
    {
      listeners := map[];
    }

    method AddEventListener(id: Id, cb: Cb)
      modifies this
      ensures listeners == Added(old(listeners), id, cb)
      ensures old(Valid()) ==> Valid()
    {
      if id !in listeners {
        listeners := listeners[id := []];
      }
      listeners := listeners[id := listeners[id] + [cb]];
      RegistryInvariant(old(listeners), id, cb);
    }

    /** Returns true when the source raises ValueError (registered id, callback not in its list). */
    method RemoveEventListener(id: Id, cb: Cb) returns (raised: bool)
      modifies this
      ensures raised <==> Removed(old(listeners), id, cb).None?
      ensures raised ==> listeners == old(listeners)
      ensures !raised ==> Removed(old(listeners), id, cb) == Some(listeners)
      ensures old(Valid()) ==> Valid()
    {
      raised := false;
      if id in listeners {
        if cb !in listeners[id] {
          raised := true;
          return;
        }
        var rest := RemoveFirst(listeners[id], cb);
        listeners := listeners[id := rest];
        if |rest| == 0 {
          listeners := listeners - {id};
          assert listeners == old(listeners) - {id};
        }
      }
      RegistryInvariant(old(listeners), id, cb);
    }

    /** Runs the registered callbacks of id in order, each with args. */
    method FireEvent<A>(id: Id, args: A) returns (calls: seq<Call<Cb, A>>)
      ensures calls == Dispatch(listeners, id, args)
    {
      calls := [];
      if id in listeners {
        var cbs := listeners[id];
        CallsInRegistrationOrder(cbs, args);
        var i := 0;
        while i < |cbs|
          invariant 0 <= i <= |cbs|
          invariant calls == CallsOf(cbs, args)[..i]
        {
          calls := calls + [Call(cbs[i], args)];
          i := i + 1;
        }
        assert CallsOf(cbs, args)[..|cbs|] == CallsOf(cbs, args);
      }
    }

    /**
     * The `@event` decorator applied to a method named `name` with body `body`: the body runs
     * first, then the event of the same name fires with the same arguments, and the body's
     * result is returned.
     */
    method Event<A, R>(name: Id, body: A -> R, args: A) returns (r: R, calls: seq<Call<Cb, A>>)
      ensures r == body(args)
      ensures calls == Dispatch(listeners, name, args)
    {
      r := body(args);
      calls := FireEvent(name, args);
    }
  }
}
