/** `ClientPool`: several clients served from one loop, one message at a
    time, in round-robin order. `itertools.cycle` over the client set is
    modelled as a fixed order of the clients and a cursor: the position the
    cycle yields next. */
module Pool {
  import opened Wrappers

  predicate Distinct<C(==)>(s: seq<C>) {
    forall i, j :: 0 <= i < j < |s| ==> s[i] != s[j]
  }

  /** The position `d` steps after `cursor` around a cycle of length `n`. */
  function At(n: nat, cursor: nat, d: nat): (i: nat)
    requires cursor < n && d < n
    ensures i < n
  {
    if cursor + d < n then cursor + d else cursor + d - n
  }

  /** How many steps after `cursor` the position `i` comes. */
  function Offset(n: nat, cursor: nat, i: nat): (d: nat)
    requires cursor < n && i < n
    ensures d < n && At(n, cursor, d) == i
  {
    if i >= cursor then i - cursor else i + n - cursor
  }

  lemma OffsetAt(n: nat, cursor: nat, d: nat)
    requires cursor < n && d < n
    ensures Offset(n, cursor, At(n, cursor, d)) == d
  {
  }

  /** Where the cycle resumes after yielding position `i`. */
  function Next(n: nat, i: nat): (c: nat)
    requires i < n
    ensures c < n
  {
    if i + 1 < n then i + 1 else 0
  }

  /** A cursor that is a position of the cycle (or 0 for an empty pool). */
  predicate CursorOk(n: nat, cursor: nat) {
    cursor < n || cursor == 0
  }

  /** The first ready client at least `d` steps after `cursor`. */
  function Scan<C>(clients: seq<C>, ready: set<C>, cursor: nat, d: nat): (r: Option<nat>)
    requires cursor < |clients| && d <= |clients|
    ensures r.None? ==> forall e :: d <= e < |clients| ==> clients[At(|clients|, cursor, e)] !in ready
    ensures r.Some? ==> r.value < |clients| && clients[r.value] in ready && d <= Offset(|clients|, cursor, r.value)
    ensures r.Some? ==> forall e :: d <= e < Offset(|clients|, cursor, r.value) ==>
                          clients[At(|clients|, cursor, e)] !in ready
    decreases |clients| - d
  {
    if d == |clients| then None
    else if clients[At(|clients|, cursor, d)] in ready then
      OffsetAt(|clients|, cursor, d);
      Some(At(|clients|, cursor, d))
    else Scan(clients, ready, cursor, d + 1)
  }

  /** The client `handle_message` serves: the first ready one at or after the
      cursor in cyclic order; none when no client is ready. */
  function Pick<C>(clients: seq<C>, ready: set<C>, cursor: nat): (r: Option<nat>)
    requires CursorOk(|clients|, cursor)
    ensures r.None? <==> forall i :: 0 <= i < |clients| ==> clients[i] !in ready
    ensures r.Some? ==> r.value < |clients| && clients[r.value] in ready
    ensures r.Some? ==> forall i :: (0 <= i < |clients| &&
      Offset(|clients|, cursor, i) < Offset(|clients|, cursor, r.value)) ==> clients[i] !in ready
  {
    if |clients| == 0 then None
    else
      var r := Scan(clients, ready, cursor, 0);
      assert r.None? ==> forall i :: 0 <= i < |clients| ==> clients[i] !in ready by {
        if r.None? {
          forall i | 0 <= i < |clients| ensures clients[i] !in ready {
            assert At(|clients|, cursor, Offset(|clients|, cursor, i)) == i;
          }
        }
      }
      assert r.Some? ==> forall i :: (0 <= i < |clients| &&
        Offset(|clients|, cursor, i) < Offset(|clients|, cursor, r.value)) ==> clients[i] !in ready by {
        if r.Some? {
          forall i | 0 <= i < |clients| && Offset(|clients|, cursor, i) < Offset(|clients|, cursor, r.value)
            ensures clients[i] !in ready
          {
            assert At(|clients|, cursor, Offset(|clients|, cursor, i)) == i;
          }
        }
      }
      r
  }

  /** Some client of the pool is in `ready`. */
  predicate HasReady<C>(clients: seq<C>, ready: set<C>) {
    exists i :: 0 <= i < |clients| && clients[i] in ready
  }

  /** The clients served by consecutive calls of `handle_message`, where
      `readies[k]` is the set of clients with a message at the k-th call and
      some client has one at every call. */
  function Serve<C>(clients: seq<C>, readies: seq<set<C>>, cursor: nat): (served: seq<nat>)
    requires CursorOk(|clients|, cursor)
    requires forall k :: 0 <= k < |readies| ==> HasReady(clients, readies[k])
    ensures |served| == |readies|
    ensures forall k :: 0 <= k < |served| ==> served[k] < |clients| && clients[served[k]] in readies[k]
    decreases |readies|
  {
    if readies == [] then []
    else
      assert HasReady(clients, readies[0]);
      var w :| 0 <= w < |clients| && clients[w] in readies[0];
      var p := Pick(clients, readies[0], cursor).value;
      [p] + Serve(clients, readies[1..], Next(|clients|, p))
  }

  /** Fairness: a client that has a message at every call is served within as
      many calls as it is steps after the cursor, plus one, whichever other
      clients have messages meanwhile. */
  lemma {:induction false} ServedWithin<C>(clients: seq<C>, readies: seq<set<C>>, cursor: nat, j: nat)
    requires cursor < |clients| && j < |clients|
    requires forall k :: 0 <= k < |readies| ==> clients[j] in readies[k]
    requires Offset(|clients|, cursor, j) < |readies|
    ensures forall k :: 0 <= k < |readies| ==> HasReady(clients, readies[k])
    ensures j in Serve(clients, readies, cursor)
    decreases |readies|
  {
    var n := |clients|;
    forall k | 0 <= k < |readies| ensures HasReady(clients, readies[k]) {
      assert clients[j] in readies[k];
    }
    var p := Pick(clients, readies[0], cursor).value;
    if p != j {
      var c := Next(n, p);
      assert Offset(n, cursor, p) < Offset(n, cursor, j);
      assert Offset(n, c, j) < |readies| - 1;
      ServedWithin(clients, readies[1..], c, j);
    }
  }

  /** Fairness: a client that has a message at every call is served within
      `|clients|` calls. */
  lemma EveryReadyClientServed<C>(clients: seq<C>, readies: seq<set<C>>, cursor: nat, j: nat)
    requires CursorOk(|clients|, cursor) && j < |clients|
    requires |readies| == |clients|
    requires forall k :: 0 <= k < |readies| ==> clients[j] in readies[k]
    ensures forall k :: 0 <= k < |readies| ==> HasReady(clients, readies[k])
    ensures j in Serve(clients, readies, cursor)
  {
    ServedWithin(clients, readies, cursor, j);
  }

  /** While another client is ready, the one just served is not served again
      next. */
  lemma NotServedTwiceInARow<C>(clients: seq<C>, ready: set<C>, cursor: nat, j: nat)
    requires CursorOk(|clients|, cursor) && j < |clients| && clients[j] in ready
    requires Pick(clients, ready, cursor) != Some(j)
    ensures var p := Pick(clients, ready, cursor).value;
      Pick(clients, ready, Next(|clients|, p)) != Some(p)
  {
    var n := |clients|;
    var p := Pick(clients, ready, cursor).value;
    var c := Next(n, p);
    assert Offset(n, c, j) < Offset(n, c, p);
  }

  /** With clients A, B, C of which only A and C are ready, two calls serve A
      and then C. */
  lemma ThreeClientExample()
    ensures Pick(['A', 'B', 'C'], {'A', 'C'}, 0) == Some(0)
    ensures Pick(['A', 'B', 'C'], {'A', 'C'}, Next(3, 0)) == Some(2)
  {
    var clients, ready := ['A', 'B', 'C'], {'A', 'C'};
    assert Pick(clients, ready, 0) == Some(0) by {
      assert Offset(3, 0, 0) == 0;
    }
    assert Pick(clients, ready, 1) == Some(2) by {
      assert clients[1] !in ready;
      assert Offset(3, 1, 2) == 1 && Offset(3, 1, 0) == 2;
    }
  }

  /** `NoMessageAvailable`, and the `KeyError` of removing a client that is
      not in the pool. */
  datatype PoolError = NoMessageAvailable | NotInPool

  /** The pool: its clients in cycle order and the cycle's position. */
  class ClientPool<C(==)> {
    var clients: seq<C>
    var cursor: nat

    ghost predicate Valid()
      reads this
    {
      Distinct(clients) && CursorOk(|clients|, cursor)
    }

    /** `ClientPool(clients)`: the clients given, each once, with a fresh cycle. */
    constructor (initial: seq<C>)
      ensures Valid() && cursor == 0
      ensures forall c :: c in clients <==> c in initial
    {
      var cs: seq<C> := [];
      var i := 0;
      while i < |initial|
        invariant 0 <= i <= |initial|
        invariant Distinct(cs)
        invariant forall c :: c in cs <==> c in initial[..i]
      {
        if initial[i] !in cs {
          cs := cs + [initial[i]];
        }
        assert initial[..i + 1] == initial[..i] + [initial[i]];
        i := i + 1;
      }
      assert initial[..i] == initial;
      clients := cs;
      cursor := 0;
    }

    /** `add`: the client joins the set and the cycle starts afresh. */
    method Add(c: C)
      requires Valid()
      modifies this
      ensures Valid() && cursor == 0
      ensures clients == if c in old(clients) then old(clients) else old(clients) + [c]
    {
      if c !in clients {
        clients := clients + [c];
      }
      cursor := 0;
    }

    /** `remove`: the client leaves the set and the cycle starts afresh;
        removing a client that is not there raises and changes nothing. */
    method Remove(c: C) returns (r: Outcome<PoolError>)
      requires Valid()
      modifies this
      ensures Valid()
      ensures r.Fail? <==> c !in old(clients)
      ensures r.Fail? ==> r.error == NotInPool && clients == old(clients) && cursor == old(cursor)
      ensures r.Pass? ==> cursor == 0 && c !in clients
      ensures r.Pass? ==> forall x :: x in clients <==> x in old(clients) && x != c
    {
      if c !in clients {
        return Fail(NotInPool);
      }
      var i :| 0 <= i < |clients| && clients[i] == c;
      clients := clients[..i] + clients[i + 1..];
      cursor := 0;
      r := Pass;
    }

    /** `has_message`: some client of the pool has a message ready. */
    predicate HasMessage(ready: set<C>)
      reads this
      ensures CursorOk(|clients|, cursor) ==> (HasMessage(ready) <==> Pick(clients, ready, cursor).Some?)
    {
      exists i :: 0 <= i < |clients| && clients[i] in ready
    }

    /** `handle_message`: raise `NoMessageAvailable` when no client is ready;
        otherwise resume the cycle, serve the first ready client and leave the
        cycle just after it. Returns the position of the client served. */
    method HandleMessage(ready: set<C>) returns (r: Result<nat, PoolError>)
      requires Valid()
      modifies this`cursor
      ensures Valid()
      ensures r.Err? <==> Pick(clients, ready, old(cursor)).None?
      ensures r.Err? ==> r.error == NoMessageAvailable && cursor == old(cursor)
      ensures r.Ok? ==> Pick(clients, ready, old(cursor)) == Some(r.value) && cursor == Next(|clients|, r.value)
    {
      if !HasMessage(ready) {
        return Err(NoMessageAvailable);
      }
      var n, start := |clients|, cursor;
      ghost var w :| 0 <= w < n && clients[w] in ready;
      assert At(n, start, Offset(n, start, w)) == w;
      var d := 0;
      while true
        invariant 0 <= d < n
        invariant forall e :: 0 <= e < d ==> clients[At(n, start, e)] !in ready
        invariant exists e :: d <= e < n && clients[At(n, start, e)] in ready
        decreases n - d
      {
        var i := At(n, start, d);
        if clients[i] in ready {
          ghost var p := Pick(clients, ready, start).value;
          OffsetAt(n, start, d);
          assert Offset(n, start, p) == d by {
            assert At(n, start, Offset(n, start, p)) == p;
          }
          cursor := Next(n, i);
          return Ok(i);
        }
        d := d + 1;
      }
    }
  }
}
