/**
 * The round-robin assignment of clients to worker lanes that receiveData performs in
 * multi-threaded mode: a client without a lane gets the lane under the cursor, and
 * the cursor moves to the next lane, wrapping to 0 after the last one.
 */
module Lanes {

  /** The cursor after handing out lane `next` of `threadCount`. */
  function Advance(next: nat, threadCount: int): (r: nat)
    requires next < threadCount
    ensures r < threadCount
    ensures r == (next + 1) % threadCount
  {
    if next + 1 >= threadCount then 0 else next + 1
  }

  /** Lanes and cursor after a document of `client` completes. */
  function Assign<C>(lanes: map<C, nat>, next: nat, threadCount: int, client: C): (map<C, nat>, nat)
    requires next < threadCount
  {
    if client in lanes then (lanes, next) else (lanes[client := next], Advance(next, threadCount))
  }

  /** Every lane handed out, and the cursor, lie in [0, threadCount). */
  ghost predicate InRange<C>(lanes: map<C, nat>, next: nat, threadCount: int) {
    next < threadCount && forall c :: c in lanes ==> lanes[c] < threadCount
  }

  /** Assignment keeps every lane and the cursor in range and never moves a client that already has a lane. */
  lemma AssignKeeps<C>(lanes: map<C, nat>, next: nat, threadCount: int, client: C)
    requires InRange(lanes, next, threadCount)
    ensures var (lanes', next') := Assign(lanes, next, threadCount, client);
      && InRange(lanes', next', threadCount)
      && client in lanes'
      && lanes'.Keys == lanes.Keys + {client}
      && (forall c :: c in lanes ==> lanes'[c] == lanes[c])
  {
  }

  /** Lanes and cursor after documents of `clients` complete, one after another. */
  function AssignAll<C>(lanes: map<C, nat>, next: nat, threadCount: int, clients: seq<C>): (map<C, nat>, nat)
    requires next < threadCount
    decreases |clients|
  {
    if clients == [] then (lanes, next)
    else
      var (lanes', next') := Assign(lanes, next, threadCount, clients[0]);
      AssignAll(lanes', next', threadCount, clients[1..])
  }

  /** A client's lane never changes once assigned, whatever other documents complete later. */
  lemma {:induction false} LaneSticky<C>(lanes: map<C, nat>, next: nat, threadCount: int, clients: seq<C>, c: C)
    requires next < threadCount && c in lanes
    ensures c in AssignAll(lanes, next, threadCount, clients).0
    ensures AssignAll(lanes, next, threadCount, clients).0[c] == lanes[c]
    decreases |clients|
  {
    if clients != [] {
      var (lanes', next') := Assign(lanes, next, threadCount, clients[0]);
      LaneSticky(lanes', next', threadCount, clients[1..], c);
    }
  }

  /** However many documents complete, every lane handed out and the cursor stay in [0, threadCount). */
  lemma {:induction false} AssignAllInRange<C>(lanes: map<C, nat>, next: nat, threadCount: int, clients: seq<C>)
    requires InRange(lanes, next, threadCount)
    ensures InRange(AssignAll(lanes, next, threadCount, clients).0, AssignAll(lanes, next, threadCount, clients).1, threadCount)
    decreases |clients|
  {
    if clients != [] {
      AssignKeeps(lanes, next, threadCount, clients[0]);
      var (lanes', next') := Assign(lanes, next, threadCount, clients[0]);
      AssignAllInRange(lanes', next', threadCount, clients[1..]);
    }
  }

  /** The cursor after handing out `k` lanes starting from `next`. */
  function Rotate(next: nat, k: nat, threadCount: int): (r: nat)
    requires next < threadCount
    ensures r < threadCount
    decreases k
  {
    if k == 0 then next else Rotate(Advance(next, threadCount), k - 1, threadCount)
  }

  /** Handing out `k` lanes moves the cursor k places round the ring of lanes. */
  lemma {:induction false} RotateIsModular(next: nat, k: nat, threadCount: int)
    requires next < threadCount
    ensures Rotate(next, k, threadCount) == (next + k) % threadCount
    decreases k
  {
    if k > 0 {
      RotateIsModular(Advance(next, threadCount), k - 1, threadCount);
      ModAddOne(next, k - 1, threadCount);
    }
  }

  /**
   * Round robin: the i-th of a sequence of distinct clients that have no lane yet gets
   * the lane i places after the cursor, and the cursor ends |clients| places on.
   */
  lemma {:induction false} RoundRobin<C>(lanes: map<C, nat>, next: nat, threadCount: int, clients: seq<C>)
    requires next < threadCount
    requires forall i :: 0 <= i < |clients| ==> clients[i] !in lanes
    requires forall i, j :: 0 <= i < j < |clients| ==> clients[i] != clients[j]
    ensures AssignAll(lanes, next, threadCount, clients).1 == Rotate(next, |clients|, threadCount)
    ensures forall i :: 0 <= i < |clients| ==>
      && clients[i] in AssignAll(lanes, next, threadCount, clients).0
      && AssignAll(lanes, next, threadCount, clients).0[clients[i]] == Rotate(next, i, threadCount)
    decreases |clients|
  {
    if clients != [] {
      var c := clients[0];
      var lanes1 := lanes[c := next];
      var next1 := Advance(next, threadCount);
      var rest := clients[1..];
      assert AssignAll(lanes, next, threadCount, clients) == AssignAll(lanes1, next1, threadCount, rest);
      assert forall i :: 0 <= i < |rest| ==> rest[i] !in lanes1 by {
        forall i | 0 <= i < |rest| ensures rest[i] !in lanes1 {
          assert rest[i] == clients[i + 1];
        }
      }
      RoundRobin(lanes1, next1, threadCount, rest);
      forall i | 0 <= i < |clients|
        ensures clients[i] in AssignAll(lanes1, next1, threadCount, rest).0
        ensures AssignAll(lanes1, next1, threadCount, rest).0[clients[i]] == Rotate(next, i, threadCount)
      {
        if i == 0 {
          LaneSticky(lanes1, next1, threadCount, rest, c);
        } else {
          assert clients[i] == rest[i - 1];
        }
      }
    }
  }

  lemma {:induction false} MulAtLeast(n: int, k: int)
    requires n > 0 && k >= 1
    ensures n * k >= n
    decreases k
  {
    if k > 1 {
      MulAtLeast(n, k - 1);
      assert n * k == n * (k - 1) + n;
    }
  }

  /** Euclidean division has one quotient and one remainder. */
  lemma ModUnique(y: int, n: int, q: int, r: int)
    requires n > 0 && 0 <= r < n && y == n * q + r
    ensures y % n == r
  {
    var q0 := y / n;
    var r0 := y % n;
    assert n * (q - q0) == r0 - r;
    if q - q0 >= 1 {
      MulAtLeast(n, q - q0);
    } else if q0 - q >= 1 {
      MulAtLeast(n, q0 - q);
    }
  }

  lemma ModAddOne(a: nat, b: nat, n: int)
    requires 0 < n
    ensures ((a + 1) % n + b) % n == (a + 1 + b) % n
  {
    var q := (a + 1) / n;
    var r := (a + 1) % n;
    var q2 := (r + b) / n;
    var r2 := (r + b) % n;
    assert a + 1 + b == n * q + (r + b) == n * q + n * q2 + r2;
    assert n * q + n * q2 == n * (q + q2);
    ModUnique(a + 1 + b, n, q + q2, r2);
  }
}
