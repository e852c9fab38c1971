/** Singly linked lists of tasks, threaded through the `next` field of the task control blocks.
    A task is named by the address of its control block; NULL is 0. */
module TaskLists {

  type Tid = nat

  const NULL: Tid := 0

  /** Following `next` from `head` visits exactly the tasks of `q`, in order, and ends at NULL. */
  ghost predicate IsList(next: map<Tid, Tid>, head: Tid, q: seq<Tid>)
    decreases |q|
  {
    if q == [] then head == NULL
    else head == q[0] && head != NULL && head in next && IsList(next, next[head], q[1..])
  }

  function Tail(q: seq<Tid>): Tid {
    if q == [] then NULL else q[|q| - 1]
  }

  /** The ready queue: a list and a pointer to its true last element, NULL exactly when the list is empty. */
  datatype Queue = Queue(next: map<Tid, Tid>, first: Tid, last: Tid)

  ghost predicate IsQueue(u: Queue, q: seq<Tid>) {
    IsList(u.next, u.first, q) && u.last == Tail(q)
  }

  /** How often `t` occurs in `q`. */
  ghost function Count(q: seq<Tid>, t: Tid): (n: nat)
    ensures n > 0 <==> t in q
  {
    if q == [] then 0 else (if q[0] == t then 1 else 0) + Count(q[1..], t)
  }

  lemma {:induction false} CountAppend(p: seq<Tid>, q: seq<Tid>, t: Tid)
    ensures Count(p + q, t) == Count(p, t) + Count(q, t)
  {
    if p == [] {
      assert p + q == q;
    } else {
      CountAppend(p[1..], q, t);
      assert (p + q)[1..] == p[1..] + q;
    }
  }

  lemma CountOne(c: Tid, t: Tid)
    ensures Count([c], t) == if c == t then 1 else 0
  {
    assert [c][1..] == [];
  }

  /** No task occurs twice. */
  ghost predicate NoDup(q: seq<Tid>) {
    forall t :: Count(q, t) <= 1
  }

  /** `q` without the first occurrence of `t`. */
  function Remove(q: seq<Tid>, t: Tid): seq<Tid> {
    if q == [] then [] else if q[0] == t then q[1..] else [q[0]] + Remove(q[1..], t)
  }

  /** `q` without the tasks of `d`. */
  function Without(q: seq<Tid>, d: seq<Tid>): seq<Tid>
    decreases |d|
  {
    if d == [] then q else Without(Remove(q, d[0]), d[1..])
  }

  lemma {:induction false} RemoveCount(q: seq<Tid>, t: Tid, s: Tid)
    requires t in q
    ensures Count(Remove(q, t), s) == Count(q, s) - if s == t then 1 else 0
  {
    if q[0] != t {
      RemoveCount(q[1..], t, s);
      CountAppend([q[0]], Remove(q[1..], t), s);
      CountOne(q[0], s);
    }
  }

  lemma {:induction false} WithoutCount(q: seq<Tid>, d: seq<Tid>, s: Tid)
    requires forall t :: Count(d, t) <= Count(q, t)
    ensures Count(Without(q, d), s) == Count(q, s) - Count(d, s)
    decreases |d|
  {
    if d != [] {
      assert Count(d, d[0]) <= Count(q, d[0]);
      RemoveCount(q, d[0], s);
      forall t ensures Count(d[1..], t) <= Count(Remove(q, d[0]), t) {
        assert Count(d, t) <= Count(q, t);
        RemoveCount(q, d[0], t);
      }
      WithoutCount(Remove(q, d[0]), d[1..], s);
    }
  }

  function Pop(u: Queue): Queue
    requires u.first in u.next
  {
    var f := u.next[u.first];
    Queue(u.next, f, if f == NULL then NULL else u.last)
  }

  function Push(u: Queue, t: Tid): Queue {
    var n := u.next[t := NULL];
    if u.last != NULL then Queue(n[u.last := t], u.first, t) else Queue(n, t, t)
  }

  lemma TailNoDup(q: seq<Tid>)
    requires q != [] && NoDup(q)
    ensures q[0] !in q[1..] && NoDup(q[1..])
  {
    assert Count(q, q[0]) <= 1;
    forall t ensures Count(q[1..], t) <= 1 { assert Count(q, t) <= 1; }
  }

  lemma {:induction false} ListFrame(next: map<Tid, Tid>, head: Tid, q: seq<Tid>, t: Tid, v: Tid)
    requires IsList(next, head, q) && t !in q
    ensures IsList(next[t := v], head, q)
    decreases |q|
  {
    if q != [] {
      ListFrame(next, next[head], q[1..], t, v);
    }
  }

  lemma {:induction false} ListMembers(next: map<Tid, Tid>, head: Tid, q: seq<Tid>)
    requires IsList(next, head, q)
    ensures forall t :: t in q ==> t != NULL && t in next
    ensures q != [] ==> next[Tail(q)] == NULL
    decreases |q|
  {
    if q != [] {
      ListMembers(next, next[head], q[1..]);
      assert q == [q[0]] + q[1..];
    }
  }

  lemma {:induction false} ListAppend(next: map<Tid, Tid>, head: Tid, q: seq<Tid>, t: Tid)
    requires IsList(next, head, q) && q != [] && NoDup(q + [t]) && t != NULL
    ensures IsList(next[t := NULL][Tail(q) := t], head, q + [t])
    decreases |q|
  {
    assert q + [t] == [q[0]] + (q[1..] + [t]) && (q + [t])[1..] == q[1..] + [t];
    TailNoDup(q + [t]);
    if |q| == 1 {
      assert q[1..] + [t] == [t] && [t][1..] == [];
    } else {
      assert Tail(q) == Tail(q[1..]) && Tail(q) in q[1..] + [t];
      ListAppend(next, next[head], q[1..], t);
    }
  }

  lemma PopOk(u: Queue, q: seq<Tid>)
    requires IsQueue(u, q) && q != []
    ensures u.first == q[0] && IsQueue(Pop(u), q[1..])
  {
    ListMembers(u.next, u.first, q);
  }

  lemma PushOk(u: Queue, q: seq<Tid>, t: Tid)
    requires IsQueue(u, q) && t != NULL && NoDup(q + [t])
    ensures IsQueue(Push(u, t), q + [t])
  {
    ListMembers(u.next, u.first, q);
    if q == [] {
      assert q + [t] == [t] && [t][1..] == [];
    } else {
      assert Tail(q) in q;
      ListAppend(u.next, u.first, q, t);
    }
  }

  lemma {:induction false} ListPrepend(next: map<Tid, Tid>, head: Tid, q: seq<Tid>, t: Tid)
    requires IsList(next, head, q) && t !in q && t != NULL
    ensures IsList(next[t := head], t, [t] + q)
  {
    ListFrame(next, head, q, t, head);
    assert ([t] + q)[1..] == q;
  }

  /** Unlinking `c`: the list goes on from its predecessor, or from the head if it has none. */
  lemma {:induction false} ListUnlink(next: map<Tid, Tid>, head: Tid, p: seq<Tid>, c: Tid, r: seq<Tid>)
    requires IsList(next, head, p + [c] + r) && NoDup(p + [c] + r)
    ensures c in next && IsList(next, next[c], r)
    ensures p == [] ==> head == c
    ensures p != [] ==> IsList(next[Tail(p) := next[c]], head, p + r)
    decreases |p|
  {
    var q := p + [c] + r;
    if p == [] {
      assert q[1..] == r;
    } else {
      assert q[1..] == p[1..] + [c] + r && (p + r)[1..] == p[1..] + r;
      TailNoDup(q);
      ListUnlink(next, next[head], p[1..], c, r);
      if |p| == 1 {
        assert p[1..] + r == r;
        ListFrame(next, next[c], r, p[0], next[c]);
      } else {
        assert Tail(p) in q[1..];
      }
    }
  }

  /** Splitting a list in two, the second half starts where the first one points to. */
  lemma {:induction false} ListSuffix(next: map<Tid, Tid>, head: Tid, p: seq<Tid>, r: seq<Tid>)
    requires IsList(next, head, p + r)
    ensures p == [] ==> IsList(next, head, r)
    ensures p != [] ==> Tail(p) in next && IsList(next, next[Tail(p)], r)
    decreases |p|
  {
    if p == [] {
      assert p + r == r;
    } else {
      assert (p + r)[1..] == p[1..] + r;
      ListSuffix(next, next[head], p[1..], r);
      if |p| == 1 { assert p[1..] + r == r; }
    }
  }

  lemma {:induction false} ListUnique(next: map<Tid, Tid>, head: Tid, p: seq<Tid>, q: seq<Tid>)
    requires IsList(next, head, p) && IsList(next, head, q)
    ensures p == q
    decreases |p|
  {
    if p != [] {
      ListUnique(next, next[head], p[1..], q[1..]);
      assert p == [p[0]] + p[1..] && q == [q[0]] + q[1..];
    }
  }

  /** Ending the list at `c` cuts off everything behind it. */
  lemma {:induction false} ListTruncate(next: map<Tid, Tid>, head: Tid, p: seq<Tid>, c: Tid, r: seq<Tid>)
    requires IsList(next, head, p + [c] + r) && NoDup(p + [c] + r)
    ensures IsList(next[c := NULL], head, p + [c])
    decreases |p|
  {
    var q := p + [c] + r;
    if p != [] {
      assert q[1..] == p[1..] + [c] + r && (p + [c])[1..] == p[1..] + [c];
      TailNoDup(q);
      assert c in q[1..];
      ListTruncate(next, next[head], p[1..], c, r);
    }
  }

  /** Appending a task that is already queued destroys the queue: either the list becomes a cycle, or
      tasks that were waiting behind it are lost. No list read off the result holds all that were queued. */
  lemma DoublePushCorrupts(u: Queue, q: seq<Tid>, c: Tid, s: seq<Tid>)
    requires IsQueue(u, q) && NoDup(q) && c in q && (forall t :: t in q ==> t in s)
    ensures !IsQueue(Push(u, c), s)
  {
    var i :| 0 <= i < |q| && q[i] == c;
    var p, r := q[..i], q[i + 1..];
    assert q == p + [c] + r;
    ListMembers(u.next, u.first, q);
    var w := Push(u, c);
    assert Tail(q) in q && u.last == Tail(q) != NULL;
    if r == [] {
      assert Tail(q) == c && w.next[c] == c;
      if IsQueue(w, s) { ListMembers(w.next, w.first, s); }
    } else {
      var d := Tail(q);
      assert d == Tail(r) && Count(q, d) <= 1;
      CountAppend(p + [c], r, d);
      assert d in r && d !in p + [c];
      ListTruncate(u.next, u.first, p, c, r);
      ListFrame(u.next[c := NULL], u.first, p + [c], d, c);
      assert w == Queue(u.next[c := NULL][d := c], u.first, c);
      assert IsList(w.next, w.first, p + [c]) && d in s;
      if IsQueue(w, s) { ListUnique(w.next, w.first, p + [c], s); }
    }
  }
}
