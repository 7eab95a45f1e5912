/** queue.ts: the global list of active calls (State.first/last/firstNew) and
    each element's named FIFOs of pending calls (queueList), which reuse the
    same `next` field. Calls live in an arena and are named by handles. */
module Queues {
  import opened Types

  /** One element's queue of a given name: the key of `Data(element).queueList` and `lastAnimationList`. */
  datatype QueueId = QueueId(element: Element, name: string)

  /** Where a call is: in no list, in the active list, or pending in queue `k`. */
  datatype Loc = Free | Active | Queued(k: QueueId)

  /** A present `queueList` entry: the `null` sentinel ("running, nothing pending") or the head call. */
  datatype Entry = Sentinel | Head(h: Handle)

  /** The present `queueList` entries of all elements. */
  type QueueLists = map<QueueId, Entry>

  /** The pending FIFO behind each present `queueList` entry. */
  type Pending = map<QueueId, seq<Handle>>

  /** What `dequeue` returns: a call, `null`, or `undefined`. */
  datatype Popped = PoppedCall(h: Handle) | PoppedNull | PoppedNothing

  ghost predicate Distinct(s: seq<Handle>)
  {
    forall i, j | 0 <= i < j < |s| :: s[i] != s[j]
  }

  /** The link after position `i` of a list spelled by `s`. */
  ghost function Succ(s: seq<Handle>, i: int): Link
    requires 0 <= i < |s|
  {
    if i + 1 < |s| then Ref(s[i + 1]) else Nil
  }

  /** The link before position `i` of a list spelled by `s`. */
  ghost function Pred(s: seq<Handle>, i: int): Link
    requires 0 <= i < |s|
  {
    if i > 0 then Ref(s[i - 1]) else Nil
  }

  /** Following `next` from `s[0]` visits exactly `s`, then `undefined`. */
  ghost predicate Linked(s: seq<Handle>, next: seq<Link>)
  {
    && (forall i | 0 <= i < |s| :: s[i] < |next|)
    && (forall i {:trigger next[s[i]]} | 0 <= i < |s| :: next[s[i]] == Succ(s, i))
  }

  /** Following `prev` from the end of `s` visits `s` backwards. */
  ghost predicate BackLinked(s: seq<Handle>, prev: seq<Link>)
  {
    && (forall i | 0 <= i < |s| :: s[i] < |prev|)
    && (forall i {:trigger prev[s[i]]} | 0 <= i < |s| :: prev[s[i]] == Pred(s, i))
  }

  ghost predicate AllAt(s: seq<Handle>, loc: seq<Loc>, l: Loc)
  {
    forall i | 0 <= i < |s| :: s[i] < |loc| && loc[s[i]] == l
  }

  /** The doubly-linked active list spells out `active`, with `first`/`last` at its ends. */
  ghost predicate ActiveOk(active: seq<Handle>, first: Link, last: Link, next: seq<Link>, prev: seq<Link>, loc: seq<Loc>)
  {
    && Linked(active, next) && BackLinked(active, prev) && AllAt(active, loc, Active)
    && first == (if active == [] then Nil else Ref(active[0]))
    && last == (if active == [] then Nil else Ref(active[|active| - 1]))
  }

  /** One pending FIFO: its entry names its head (or is the sentinel when empty) and `next` chains it. */
  ghost predicate QueueOk(s: seq<Handle>, entry: Entry, next: seq<Link>, loc: seq<Loc>, k: QueueId)
  {
    && Linked(s, next) && AllAt(s, loc, Queued(k))
    && entry == (if s == [] then Sentinel else Head(s[0]))
  }

  /** Every `queueList` entry spells out its pending FIFO. */
  ghost predicate PendingOk(pending: Pending, lists: QueueLists, next: seq<Link>, loc: seq<Loc>)
  {
    && pending.Keys == lists.Keys
    && (forall k | k in pending :: k in lists && QueueOk(pending[k], lists[k], next, loc, k))
  }

  /** A chain never repeats a call: a repeat would need two different successors. */
  lemma LinkedDistinct(s: seq<Handle>, next: seq<Link>)
    requires Linked(s, next)
    ensures Distinct(s)
  {
    forall i, j | 0 <= i < j < |s| ensures s[i] != s[j] {
      LinkedNoRepeat(s, next, i, j);
    }
  }

  lemma {:induction false} LinkedNoRepeat(s: seq<Handle>, next: seq<Link>, i: nat, j: nat)
    requires Linked(s, next) && i < j < |s|
    ensures s[i] != s[j]
    decreases |s| - j
  {
    if s[i] == s[j] {
      assert next[s[i]] == Succ(s, i) && next[s[j]] == Succ(s, j);
      if j + 1 < |s| {
        LinkedNoRepeat(s, next, i + 1, j + 1);
      }
    }
  }

  /** Pending FIFOs stay intact when only handles outside every FIFO get new links or labels. */
  lemma PendingFrame(pending: Pending, lists: QueueLists, next: seq<Link>, loc: seq<Loc>, next2: seq<Link>, loc2: seq<Loc>)
    requires PendingOk(pending, lists, next, loc)
    requires |next| == |loc| && |next2| == |next| && |loc2| == |loc|
    requires forall h | 0 <= h < |loc| && loc[h].Queued? :: next2[h] == next[h] && loc2[h] == loc[h]
    ensures PendingOk(pending, lists, next2, loc2)
  {
    forall k | k in pending ensures QueueOk(pending[k], lists[k], next2, loc2, k) {
      var s := pending[k];
      assert QueueOk(s, lists[k], next, loc, k);
      forall i | 0 <= i < |s| ensures next2[s[i]] == next[s[i]] && loc2[s[i]] == loc[s[i]] {
        assert loc[s[i]] == Queued(k);
      }
    }
  }

  /** Replacing one FIFO keeps the others intact when their handles keep their links and labels. */
  lemma PendingUpdate(pending: Pending, lists: QueueLists, next: seq<Link>, loc: seq<Loc>, next2: seq<Link>, loc2: seq<Loc>,
                      k: QueueId, s: seq<Handle>, entry: Entry)
    requires PendingOk(pending, lists, next, loc)
    requires |next| == |loc| && |next2| == |next| && |loc2| == |loc|
    requires forall h | 0 <= h < |loc| && loc[h].Queued? && loc[h] != Queued(k) :: next2[h] == next[h] && loc2[h] == loc[h]
    requires QueueOk(s, entry, next2, loc2, k)
    ensures PendingOk(pending[k := s], lists[k := entry], next2, loc2)
  {
    forall k' | k' in pending && k' != k ensures QueueOk(pending[k'], lists[k'], next2, loc2, k') {
      var t := pending[k'];
      assert QueueOk(t, lists[k'], next, loc, k');
      forall i | 0 <= i < |t| ensures next2[t[i]] == next[t[i]] && loc2[t[i]] == loc[t[i]] {
        assert loc[t[i]] == Queued(k');
      }
    }
  }

  /** Deleting one entry keeps the other FIFOs intact. */
  lemma PendingDelete(pending: Pending, lists: QueueLists, next: seq<Link>, loc: seq<Loc>, k: QueueId)
    requires PendingOk(pending, lists, next, loc)
    ensures PendingOk(pending - {k}, lists - {k}, next, loc)
  {
  }

  /** Appending `h` at the tail: the old tail now points to `h`, which ends the chain. */
  lemma LinkedSnoc(s: seq<Handle>, next: seq<Link>, h: Handle)
    requires Linked(s, next) && h !in s && h < |next|
    ensures Linked(s + [h], (if s == [] then next else next[s[|s| - 1] := Ref(h)])[h := Nil])
  {
    LinkedDistinct(s, next);
    var next2 := (if s == [] then next else next[s[|s| - 1] := Ref(h)])[h := Nil];
    forall i | 0 <= i < |s + [h]|
      ensures (s + [h])[i] < |next2| && next2[(s + [h])[i]] == Succ(s + [h], i)
    {
      if i + 1 < |s| {
        assert s[i] != s[|s| - 1] && s[i] != h;
        assert next[s[i]] == Succ(s, i);
      }
    }
  }

  lemma BackLinkedSnoc(s: seq<Handle>, prev: seq<Link>, h: Handle)
    requires BackLinked(s, prev) && h !in s && h < |prev|
    ensures BackLinked(s + [h], prev[h := if s == [] then Nil else Ref(s[|s| - 1])])
  {
    var prev2 := prev[h := if s == [] then Nil else Ref(s[|s| - 1])];
    forall i | 0 <= i < |s + [h]|
      ensures (s + [h])[i] < |prev2| && prev2[(s + [h])[i]] == Pred(s + [h], i)
    {
      if i < |s| {
        assert s[i] != h;
        assert prev[s[i]] == Pred(s, i);
      }
    }
  }

  /** Relabelling a handle outside `s` keeps `s`'s labels. */
  lemma AllAtRelabel(s: seq<Handle>, loc: seq<Loc>, l: Loc, x: Handle, l2: Loc)
    requires AllAt(s, loc, l) && x < |loc| && loc[x] != l
    ensures AllAt(s, loc[x := l2], l)
  {
    forall i | 0 <= i < |s| ensures s[i] < |loc[x := l2]| && loc[x := l2][s[i]] == l {
      assert loc[s[i]] == l;
    }
  }

  /** Popping the head of a FIFO leaves a FIFO headed by the second call, or the sentinel. */
  lemma QueueOkPop(s: seq<Handle>, entry: Entry, next: seq<Link>, loc: seq<Loc>, k: QueueId)
    requires QueueOk(s, entry, next, loc, k) && s != []
    ensures QueueOk(s[1..], if |s| > 1 then Head(s[1]) else Sentinel, next, loc[s[0] := Free], k)
    ensures next[s[0]] == (if |s| > 1 then Ref(s[1]) else Nil)
  {
    LinkedDistinct(s, next);
    var t := s[1..];
    forall i | 0 <= i < |t| ensures t[i] < |next| && next[t[i]] == Succ(t, i) {
      assert t[i] == s[i + 1];
      assert next[s[i + 1]] == Succ(s, i + 1);
    }
    forall i | 0 <= i < |t| ensures t[i] < |loc| && loc[s[0] := Free][t[i]] == Queued(k) {
      assert t[i] == s[i + 1] && s[i + 1] != s[0];
      assert loc[s[i + 1]] == Queued(k);
    }
    assert next[s[0]] == Succ(s, 0);
  }

  /** Unlinking `a[i]` from a chain: its predecessor now points past it. */
  lemma LinkedRemove(a: seq<Handle>, next: seq<Link>, i: nat, next2: seq<Link>)
    requires Linked(a, next) && i < |a| && |next2| == |next|
    requires i > 0 ==> next2[a[i - 1]] == Succ(a, i)
    requires forall j | 0 <= j < |a| && j != i && j + 1 != i :: next2[a[j]] == next[a[j]]
    ensures Linked(a[..i] + a[i + 1..], next2)
  {
    var r := a[..i] + a[i + 1..];
    forall j | 0 <= j < |r| ensures r[j] < |next2| && next2[r[j]] == Succ(r, j) {
      if j + 1 < i {
        assert r[j] == a[j] && r[j + 1] == a[j + 1];
        assert next[a[j]] == Succ(a, j);
      } else if j + 1 == i {
        assert r[j] == a[i - 1];
        if j + 1 < |r| { assert r[j + 1] == a[i + 1]; }
      } else {
        assert r[j] == a[j + 1];
        assert next[a[j + 1]] == Succ(a, j + 1);
        if j + 1 < |r| { assert r[j + 1] == a[j + 2]; }
      }
    }
  }

  /** Unlinking `a[i]` from a back chain: its successor now points before it. */
  lemma BackLinkedRemove(a: seq<Handle>, prev: seq<Link>, i: nat, prev2: seq<Link>)
    requires BackLinked(a, prev) && i < |a| && |prev2| == |prev|
    requires i + 1 < |a| ==> prev2[a[i + 1]] == Pred(a, i)
    requires forall j | 0 <= j < |a| && j != i && j != i + 1 :: prev2[a[j]] == prev[a[j]]
    ensures BackLinked(a[..i] + a[i + 1..], prev2)
  {
    var r := a[..i] + a[i + 1..];
    forall j | 0 <= j < |r| ensures r[j] < |prev2| && prev2[r[j]] == Pred(r, j) {
      if j < i {
        assert r[j] == a[j];
        assert prev[a[j]] == Pred(a, j);
        if j > 0 { assert r[j - 1] == a[j - 1]; }
      } else if j == i {
        assert r[j] == a[i + 1];
        if j > 0 { assert r[j - 1] == a[i - 1]; }
      } else {
        assert r[j] == a[j + 1] && r[j - 1] == a[j];
        assert prev[a[j + 1]] == Pred(a, j + 1);
      }
    }
  }

  lemma AllAtRemove(a: seq<Handle>, loc: seq<Loc>, l: Loc, i: nat, l2: Loc)
    requires AllAt(a, loc, l) && Distinct(a) && i < |a|
    ensures AllAt(a[..i] + a[i + 1..], loc[a[i] := l2], l)
  {
    var r := a[..i] + a[i + 1..];
    forall j | 0 <= j < |r| ensures r[j] < |loc| && loc[a[i] := l2][r[j]] == l {
      var j' := if j < i then j else j + 1;
      assert r[j] == a[j'] && a[j'] != a[i];
      assert loc[a[j']] == l;
    }
  }

  /** The linked structures over an arena of `n` calls. */
  ghost predicate Wf(n: nat, next: seq<Link>, prev: seq<Link>, loc: seq<Loc>, first: Link, last: Link,
                     active: seq<Handle>, pending: Pending, lists: QueueLists)
  {
    && |next| == n && |prev| == n && |loc| == n
    && ActiveOk(active, first, last, next, prev, loc)
    && PendingOk(pending, lists, next, loc)
  }

  lemma WfGrow(n: nat, next: seq<Link>, prev: seq<Link>, loc: seq<Loc>, first: Link, last: Link,
               active: seq<Handle>, pending: Pending, lists: QueueLists)
    requires Wf(n, next, prev, loc, first, last, active, pending, lists)
    ensures Wf(n + 1, next + [Nil], prev + [Nil], loc + [Free], first, last, active, pending, lists)
  {
    forall i | 0 <= i < |active|
      ensures (next + [Nil])[active[i]] == next[active[i]] && (prev + [Nil])[active[i]] == prev[active[i]]
      ensures (loc + [Free])[active[i]] == loc[active[i]]
    {
      assert active[i] < n;
    }
    forall k | k in pending ensures QueueOk(pending[k], lists[k], next + [Nil], loc + [Free], k) {
      var s := pending[k];
      assert QueueOk(s, lists[k], next, loc, k);
      forall i | 0 <= i < |s| ensures (next + [Nil])[s[i]] == next[s[i]] && (loc + [Free])[s[i]] == loc[s[i]] {
        assert s[i] < n;
      }
    }
  }

  /** animate: `h` joins the active list at its tail. */
  lemma WfAnimate(n: nat, next: seq<Link>, prev: seq<Link>, loc: seq<Loc>, first: Link, last: Link,
                  active: seq<Handle>, pending: Pending, lists: QueueLists, h: Handle)
    requires Wf(n, next, prev, loc, first, last, active, pending, lists) && h < n && loc[h] == Free
    ensures Wf(n, (if last.Ref? then next[last.h := Ref(h)] else next)[h := Nil], prev[h := last], loc[h := Active],
               if last.Ref? then first else Ref(h), Ref(h), active + [h], pending, lists)
  {
    assert h !in active by {
      forall i | 0 <= i < |active| ensures active[i] != h { assert loc[active[i]] == Active; }
    }
    LinkedSnoc(active, next, h);
    BackLinkedSnoc(active, prev, h);
    AllAtRelabel(active, loc, Active, h, Active);
    PendingFrame(pending, lists, next, loc, (if last.Ref? then next[last.h := Ref(h)] else next)[h := Nil], loc[h := Active]);
  }

  /** A new `queueList` entry holding the `null` sentinel. */
  lemma WfStart(n: nat, next: seq<Link>, prev: seq<Link>, loc: seq<Loc>, first: Link, last: Link,
                active: seq<Handle>, pending: Pending, lists: QueueLists, k: QueueId)
    requires Wf(n, next, prev, loc, first, last, active, pending, lists)
    ensures Wf(n, next, prev, loc, first, last, active, pending[k := []], lists[k := Sentinel])
  {
    PendingUpdate(pending, lists, next, loc, next, loc, k, [], Sentinel);
  }

  /** A free call becomes the head of the FIFO behind a `null` sentinel. */
  lemma WfQueueHead(n: nat, next: seq<Link>, prev: seq<Link>, loc: seq<Loc>, first: Link, last: Link,
                    active: seq<Handle>, pending: Pending, lists: QueueLists, k: QueueId, h: Handle)
    requires Wf(n, next, prev, loc, first, last, active, pending, lists)
    requires h < n && loc[h] == Free && next[h] == Nil
    ensures Wf(n, next, prev, loc[h := Queued(k)], first, last, active, pending[k := [h]], lists[k := Head(h)])
  {
    var loc2 := loc[h := Queued(k)];
    assert QueueOk([h], Head(h), next, loc2, k) by {
      assert next[h] == Succ([h], 0);
    }
    PendingUpdate(pending, lists, next, loc, next, loc2, k, [h], Head(h));
    AllAtRelabel(active, loc, Active, h, Queued(k));
  }

  /** Appending a free, unlinked call to a non-empty FIFO. */
  lemma QueueOkSnoc(s: seq<Handle>, entry: Entry, next: seq<Link>, loc: seq<Loc>, k: QueueId, h: Handle)
    requires QueueOk(s, entry, next, loc, k) && s != []
    requires h < |next| && h < |loc| && loc[h] == Free && next[h] == Nil
    ensures QueueOk(s + [h], entry, next[s[|s| - 1] := Ref(h)], loc[h := Queued(k)], k)
  {
    assert h !in s by {
      forall i | 0 <= i < |s| ensures s[i] != h { assert loc[s[i]] == Queued(k); }
    }
    LinkedSnoc(s, next, h);
    assert next[s[|s| - 1] := Ref(h)] == next[s[|s| - 1] := Ref(h)][h := Nil];
    AllAtRelabel(s, loc, Queued(k), h, Queued(k));
  }

  /** The active list is unaffected by changes to calls outside it. */
  lemma ActiveFrame(active: seq<Handle>, first: Link, last: Link, next: seq<Link>, prev: seq<Link>, loc: seq<Loc>,
                    next2: seq<Link>, prev2: seq<Link>, loc2: seq<Loc>)
    requires ActiveOk(active, first, last, next, prev, loc)
    requires |next| == |loc| && |prev| == |loc| && |next2| == |next| && |prev2| == |prev| && |loc2| == |loc|
    requires forall h | 0 <= h < |loc| && loc[h] == Active :: next2[h] == next[h] && prev2[h] == prev[h] && loc2[h] == loc[h]
    ensures ActiveOk(active, first, last, next2, prev2, loc2)
  {
    forall i | 0 <= i < |active|
      ensures next2[active[i]] == next[active[i]] && prev2[active[i]] == prev[active[i]] && loc2[active[i]] == loc[active[i]]
    {
      assert loc[active[i]] == Active;
    }
  }

  /** A free call is linked after the tail `t` of a non-empty FIFO. */
  lemma WfQueueAppend(n: nat, next: seq<Link>, prev: seq<Link>, loc: seq<Loc>, first: Link, last: Link,
                      active: seq<Handle>, pending: Pending, lists: QueueLists, k: QueueId, h: Handle, t: Handle)
    requires Wf(n, next, prev, loc, first, last, active, pending, lists)
    requires k in pending && pending[k] != [] && t == pending[k][|pending[k]| - 1]
    requires h < n && loc[h] == Free && next[h] == Nil
    ensures Wf(n, next[t := Ref(h)], prev[h := Ref(t)], loc[h := Queued(k)], first, last, active,
               pending[k := pending[k] + [h]], lists)
  {
    QueueOkSnoc(pending[k], lists[k], next, loc, k, h);
    assert loc[t] == Queued(k) by { assert QueueOk(pending[k], lists[k], next, loc, k); }
    PendingUpdate(pending, lists, next, loc, next[t := Ref(h)], loc[h := Queued(k)], k, pending[k] + [h], lists[k]);
    assert lists[k := lists[k]] == lists;
    ActiveFrame(active, first, last, next, prev, loc, next[t := Ref(h)], prev[h := Ref(t)], loc[h := Queued(k)]);
  }

  /** dequeue's pop: the head leaves its FIFO and is free. */
  lemma WfPop(n: nat, next: seq<Link>, prev: seq<Link>, loc: seq<Loc>, first: Link, last: Link,
              active: seq<Handle>, pending: Pending, lists: QueueLists, k: QueueId)
    requires Wf(n, next, prev, loc, first, last, active, pending, lists)
    requires k in lists && lists[k].Head?
    ensures var s := pending[k];
      && s != [] && s[0] == lists[k].h && loc[s[0]] == Queued(k)
      && next[s[0]] == (if |s| > 1 then Ref(s[1]) else Nil)
      && Wf(n, next, prev, loc[s[0] := Free], first, last, active, pending[k := s[1..]],
            lists[k := if |s| > 1 then Head(s[1]) else Sentinel])
  {
    var s := pending[k];
    assert QueueOk(s, lists[k], next, loc, k);
    QueueOkPop(s, lists[k], next, loc, k);
    PendingUpdate(pending, lists, next, loc, next, loc[s[0] := Free], k, s[1..], if |s| > 1 then Head(s[1]) else Sentinel);
    AllAtRelabel(active, loc, Active, s[0], Free);
  }

  /** dequeue on a `null` sentinel: the entry is deleted. */
  lemma WfDelete(n: nat, next: seq<Link>, prev: seq<Link>, loc: seq<Loc>, first: Link, last: Link,
                 active: seq<Handle>, pending: Pending, lists: QueueLists, k: QueueId)
    requires Wf(n, next, prev, loc, first, last, active, pending, lists)
    ensures Wf(n, next, prev, loc, first, last, active, pending - {k}, lists - {k})
  {
    PendingDelete(pending, lists, next, loc, k);
  }

  /** An active call's neighbours, and whether it is at either end of the list. */
  lemma ActivePosition(active: seq<Handle>, first: Link, last: Link, next: seq<Link>, prev: seq<Link>, loc: seq<Loc>, i: nat)
    requires ActiveOk(active, first, last, next, prev, loc) && i < |active|
    ensures next[active[i]] == Succ(active, i) && prev[active[i]] == Pred(active, i)
    ensures (first == Ref(active[i])) == (i == 0)
    ensures (last == Ref(active[i])) == (i == |active| - 1)
    ensures loc[active[i]] == Active
    ensures i > 0 ==> active[i - 1] != active[i]
    ensures i + 1 < |active| ==> active[i + 1] != active[i]
  {
    LinkedDistinct(active, next);
    if i != 0 { assert active[0] != active[i]; }
    if i != |active| - 1 { assert active[i] != active[|active| - 1]; }
  }

  /** Unlinking `a[i]`: joining its predecessor to its successor keeps the rest of the chain. */
  lemma FreeNext(a: seq<Handle>, next: seq<Link>, i: nat, next2: seq<Link>)
    requires Linked(a, next) && i < |a| && |next2| == |next|
    requires i > 0 ==> next2[a[i - 1]] == Succ(a, i)
    requires forall x | 0 <= x < |next| && x != a[i] && (i == 0 || x != a[i - 1]) :: next2[x] == next[x]
    ensures Linked(a[..i] + a[i + 1..], next2)
  {
    LinkedDistinct(a, next);
    forall j | 0 <= j < |a| && j != i && j + 1 != i ensures next2[a[j]] == next[a[j]] {
      assert a[j] != a[i];
      if i > 0 { assert a[j] != a[i - 1]; }
    }
    LinkedRemove(a, next, i, next2);
  }

  /** Unlinking `a[i]`: joining its successor back to its predecessor keeps the rest of the back chain. */
  lemma FreePrev(a: seq<Handle>, next: seq<Link>, prev: seq<Link>, i: nat, prev2: seq<Link>)
    requires Linked(a, next) && BackLinked(a, prev) && i < |a| && |prev2| == |prev|
    requires i + 1 < |a| ==> prev2[a[i + 1]] == Pred(a, i)
    requires forall x | 0 <= x < |prev| && x != a[i] && (i + 1 == |a| || x != a[i + 1]) :: prev2[x] == prev[x]
    ensures BackLinked(a[..i] + a[i + 1..], prev2)
  {
    LinkedDistinct(a, next);
    forall j | 0 <= j < |a| && j != i && j != i + 1 ensures prev2[a[j]] == prev[a[j]] {
      assert a[j] != a[i];
      if i + 1 < |a| { assert a[j] != a[i + 1]; }
    }
    BackLinkedRemove(a, prev, i, prev2);
  }

  /** freeAnimationCall's unlinking of the active call at position `i`: the neighbours are joined,
      an end moves, and no other active call's links change. */
  lemma ActiveFree(a: seq<Handle>, first: Link, last: Link, next: seq<Link>, prev: seq<Link>, loc: seq<Loc>, i: nat,
                   first2: Link, last2: Link, next2: seq<Link>, prev2: seq<Link>)
    requires ActiveOk(a, first, last, next, prev, loc) && i < |a|
    requires |next2| == |next| && |prev2| == |prev|
    requires i > 0 ==> next2[a[i - 1]] == Succ(a, i)
    requires i + 1 < |a| ==> prev2[a[i + 1]] == Pred(a, i)
    requires forall x | 0 <= x < |next| && x != a[i] && (i == 0 || x != a[i - 1]) :: next2[x] == next[x]
    requires forall x | 0 <= x < |prev| && x != a[i] && (i + 1 == |a| || x != a[i + 1]) :: prev2[x] == prev[x]
    requires first2 == (if i == 0 then Succ(a, i) else first)
    requires last2 == (if i == |a| - 1 then Pred(a, i) else last)
    ensures ActiveOk(a[..i] + a[i + 1..], first2, last2, next2, prev2, loc[a[i] := Free])
  {
    FreeNext(a, next, i, next2);
    FreePrev(a, next, prev, i, prev2);
    LinkedDistinct(a, next);
    AllAtRemove(a, loc, Active, i, Free);
    var r := a[..i] + a[i + 1..];
    if r != [] {
      if i == 0 { assert r[0] == a[1]; } else { assert r[0] == a[0]; }
      if i == |a| - 1 { assert r[|r| - 1] == a[i - 1]; } else { assert r[|r| - 1] == a[|a| - 1]; }
    }
  }

  /** The call after an active call is unset or active. */
  lemma ActiveSucc(active: seq<Handle>, next: seq<Link>, i: nat)
    requires Linked(active, next) && i < |active|
    ensures next[active[i]] == Nil || next[active[i]].h in active
  {
    assert next[active[i]] == Succ(active, i);
  }

  /** Every call's callbacks record exists. */
  ghost predicate CallbacksOk(calls: seq<Call>, callbacks: seq<Callbacks>)
  {
    forall h | 0 <= h < |calls| && calls[h].callbacks.Some? :: calls[h].callbacks.value < |callbacks|
  }

  /** `queueList` and `lastAnimationList` entries belong to elements that have a data cache. */
  ghost predicate DataOk(elements: set<Element>, lists: QueueLists, lastAnimation: map<QueueId, Handle>)
  {
    && (forall k | k in lists :: k.element in elements)
    && (forall k | k in lastAnimation :: k.element in elements)
  }

  /** The `queueList` key a queue argument other than `false` names on element `e`. */
  function KeyOf(e: Element, a: QueueArg): (k: QueueId)
    requires a != QFalse
    ensures k.element == e && (a.QString? ==> k.name == a.s) && (a.QOther? ==> k.name == DEFAULT_QUEUE)
  {
    QueueId(e, QueueKey(a))
  }

  lemma CallbacksGrow(calls: seq<Call>, callbacks: seq<Callbacks>, c: Call)
    requires CallbacksOk(calls, callbacks) && (c.callbacks.Some? ==> c.callbacks.value < |callbacks|)
    ensures CallbacksOk(calls + [c], callbacks)
  {
    forall h | 0 <= h < |calls + [c]| && (calls + [c])[h].callbacks.Some?
      ensures (calls + [c])[h].callbacks.value < |callbacks|
    {
      if h < |calls| { assert (calls + [c])[h] == calls[h]; }
    }
  }

  class State {
    /** The call arena: each call's record, its `next` and `prev` fields. */
    var calls: seq<Call>
    var next: seq<Link>
    var prev: seq<Link>
    /** The shared callbacks records tick.ts reads through `call.callbacks`. */
    var callbacks: seq<Callbacks>
    /** State.first, State.last, State.firstNew. */
    var first: Link
    var last: Link
    var firstNew: Link
    /** State.isTicking and tick.ts's `lastTick`. */
    var isTicking: bool
    var lastTick: real
    /** The elements that have a data cache (`Data(element)` is defined). */
    var elements: set<Element>
    /** `Data(e).queueList[name]` and `Data(e).lastAnimationList[name]`, keyed by (e, name). */
    var queueList: QueueLists
    var lastAnimation: map<QueueId, Handle>
    /** Effects handed to code outside this model, in order. */
    var log: seq<Event>

    /** The active list, in order. */
    ghost var active: seq<Handle>
    /** The pending FIFO behind each present `queueList` entry. */
    ghost var pending: Pending
    /** Which list each call is in. */
    ghost var loc: seq<Loc>

    ghost predicate Valid()
      reads this`calls, this`next, this`prev, this`loc, this`first, this`last, this`active, this`pending,
            this`elements, this`queueList, this`lastAnimation
    {
      && Wf(|calls|, next, prev, loc, first, last, active, pending, queueList)
      && DataOk(elements, queueList, lastAnimation)
    }

    /** Every call's callbacks record exists. */
    ghost predicate CallbacksValid()
      reads this`calls, this`callbacks
    {
      CallbacksOk(calls, callbacks)
    }

    /** The `firstNew` marker is unset or an active call. */
    ghost predicate MarkerInList()
      reads this`firstNew, this`active
    {
      firstNew == Nil || firstNew.h in active
    }

    constructor ()
      ensures Valid() && CallbacksValid() && MarkerInList()
      ensures calls == [] && callbacks == [] && active == [] && elements == {} && log == []
      ensures first == Nil && last == Nil && firstNew == Nil && !isTicking && lastTick == 0.0
    {
      calls, next, prev, callbacks := [], [], [], [];
      first, last, firstNew := Nil, Nil, Nil;
      isTicking, lastTick := false, 0.0;
      elements, queueList, lastAnimation, log := {}, map[], map[], [];
      active, pending, loc := [], map[], [];
    }

    /** A fresh, unlinked call (getAnimationCall). */
    method NewCall(c: Call) returns (h: Handle)
      requires Valid() && CallbacksValid()
      requires c.callbacks.Some? ==> c.callbacks.value < |callbacks|
      modifies this`calls, this`next, this`prev, this`loc
      ensures Valid() && CallbacksValid()
      ensures h == |old(calls)| && calls == old(calls) + [c]
      ensures next == old(next) + [Nil] && prev == old(prev) + [Nil] && loc == old(loc) + [Free]
    {
      WfGrow(|calls|, next, prev, loc, first, last, active, pending, queueList);
      CallbacksGrow(calls, callbacks, c);
      h := |calls|;
      calls, next, prev, loc := calls + [c], next + [Nil], prev + [Nil], loc + [Free];
    }

    /** A new shared callbacks record. */
    method NewCallbacks(cb: Callbacks) returns (id: nat)
      requires CallbacksValid()
      modifies this`callbacks
      ensures CallbacksValid()
      ensures id == |old(callbacks)| && callbacks == old(callbacks) + [cb]
    {
      id := |callbacks|;
      callbacks := callbacks + [cb];
    }

    /** Creates the element's data cache if it has none (`Data(element) === undefined` then `init`):
        a new cache has no queue entries. */
    method InitElement(e: Element)
      requires Valid()
      modifies this`elements
      ensures Valid()
      ensures elements == old(elements) + {e}
      ensures e !in old(elements) ==> forall k | k in queueList :: k.element != e
    {
      elements := elements + {e};
    }

    /** Replaces one call record, the callbacks records and the effect log in one step; the
        call keeps its callbacks record and the lists are untouched. */
    method SetCall(h: Handle, c: Call, callbacks': seq<Callbacks>, log': seq<Event>)
      requires Valid() && CallbacksValid() && h < |calls| && c.callbacks == calls[h].callbacks
      requires |callbacks'| == |callbacks|
      modifies this`calls, this`callbacks, this`log
      ensures Valid() && CallbacksValid()
      ensures calls == old(calls)[h := c] && callbacks == callbacks' && log == log'
    {
      assert CallbacksOk(calls[h := c], callbacks') by {
        forall x | 0 <= x < |calls| ensures calls[h := c][x].callbacks == calls[x].callbacks {
        }
      }
      calls, callbacks, log := calls[h := c], callbacks', log';
    }

    /** Stores new values of the list fields, the queue registry and its shadow in one step. */
    method Store(next': seq<Link>, prev': seq<Link>, first': Link, last': Link, firstNew': Link,
                 queueList': QueueLists, lastAnimation': map<QueueId, Handle>,
                 ghost active': seq<Handle>, ghost pending': Pending, ghost loc': seq<Loc>)
      modifies this`next, this`prev, this`first, this`last, this`firstNew, this`queueList, this`lastAnimation, this`active, this`pending, this`loc
      ensures next == next' && prev == prev' && first == first' && last == last' && firstNew == firstNew'
      ensures queueList == queueList' && lastAnimation == lastAnimation'
      ensures active == active' && pending == pending' && loc == loc'
    {
      next, prev, first, last, firstNew := next', prev', first', last', firstNew';
      queueList, lastAnimation := queueList', lastAnimation';
      active, pending, loc := active', pending', loc';
    }

    /** animate (queue.ts:16-30): appends the call at the tail of the active list. */
    method Animate(h: Handle)
      requires Valid() && h < |calls| && loc[h] == Free
      modifies this`next, this`prev, this`first, this`last, this`firstNew, this`queueList, this`lastAnimation, this`active, this`pending, this`loc
      ensures Valid()
      ensures active == old(active) + [h] && loc == old(loc)[h := Active]
      ensures queueList == old(queueList) && lastAnimation == old(lastAnimation) && pending == old(pending)
      ensures last == Ref(h) && next[h] == Nil && prev[h] == old(last)
      ensures first == (if old(first) == Nil then Ref(h) else old(first))
      ensures firstNew == (if old(firstNew) == Nil then Ref(h) else old(firstNew))
      ensures old(MarkerInList()) ==> MarkerInList()
    {
      WfAnimate(|calls|, next, prev, loc, first, last, active, pending, queueList, h);
      var p := last;
      var next', first' := next, first;
      if p.Ref? {
        next' := next'[p.h := Ref(h)];
      } else {
        first' := Ref(h);
      }
      var firstNew' := if firstNew == Nil then Ref(h) else firstNew;
      Store(next'[h := Nil], prev[h := p], first', Ref(h), firstNew', queueList, lastAnimation,
            active + [h], pending, loc[h := Active]);
    }

    /** queue (queue.ts:35-61): with queue `false` the call goes straight to the active
        list; otherwise it goes to the element's FIFO named by the argument. */
    method Queue(e: Element, h: Handle, qarg: QueueArg)
      requires Valid() && h < |calls| && loc[h] == Free && next[h] == Nil
      requires qarg != QFalse ==> e in elements
      modifies this`next, this`prev, this`first, this`last, this`firstNew, this`queueList, this`lastAnimation, this`active, this`pending, this`loc
      ensures Valid() && lastAnimation == old(lastAnimation)
      ensures old(MarkerInList()) ==> MarkerInList()
      ensures qarg == QFalse ==>
        && active == old(active) + [h] && loc == old(loc)[h := Active]
        && queueList == old(queueList) && pending == old(pending)
        && firstNew == (if old(firstNew) == Nil then Ref(h) else old(firstNew))
      ensures qarg != QFalse && KeyOf(e, qarg) !in old(queueList) ==>
        && active == old(active) + [h] && loc == old(loc)[h := Active]
        && queueList == old(queueList)[KeyOf(e, qarg) := Sentinel]
        && pending == old(pending)[KeyOf(e, qarg) := []]
        && firstNew == (if old(firstNew) == Nil then Ref(h) else old(firstNew))
      ensures qarg != QFalse && KeyOf(e, qarg) in old(queueList) ==>
        && active == old(active) && first == old(first) && last == old(last) && firstNew == old(firstNew)
        && loc == old(loc)[h := Queued(KeyOf(e, qarg))]
        && pending == old(pending)[KeyOf(e, qarg) := old(pending)[KeyOf(e, qarg)] + [h]]
        && queueList == old(queueList)[KeyOf(e, qarg) :=
             if old(queueList)[KeyOf(e, qarg)] == Sentinel then Head(h) else old(queueList)[KeyOf(e, qarg)]]
    {
      if qarg == QFalse {
        Animate(h);
        return;
      }
      var k := KeyOf(e, qarg);
      if k !in queueList {
        // An absent entry: the call runs now and the entry becomes the `null` sentinel.
        WfStart(|calls|, next, prev, loc, first, last, active, pending, queueList, k);
        Store(next, prev, first, last, firstNew, queueList[k := Sentinel], lastAnimation, active, pending[k := []], loc);
        Animate(h);
        return;
      }
      if queueList[k] == Sentinel {
        Hold(k, h);
      } else {
        Append(k, h);
      }
    }

    /** queue's second case (queue.ts:47-48): behind a `null` sentinel the call becomes the
        pending head and is not activated. */
    method Hold(k: QueueId, h: Handle)
      requires Valid() && h < |calls| && loc[h] == Free && next[h] == Nil
      requires k in queueList && queueList[k] == Sentinel
      modifies this`next, this`prev, this`first, this`last, this`firstNew, this`queueList, this`lastAnimation, this`active, this`pending, this`loc
      ensures Valid()
      ensures old(pending)[k] == [] && pending == old(pending)[k := old(pending)[k] + [h]] && loc == old(loc)[h := Queued(k)]
      ensures queueList == old(queueList)[k := Head(h)] && lastAnimation == old(lastAnimation)
      ensures active == old(active) && first == old(first) && last == old(last) && firstNew == old(firstNew)
    {
      assert QueueOk(pending[k], queueList[k], next, loc, k);
      assert pending[k] + [h] == [h];
      WfQueueHead(|calls|, next, prev, loc, first, last, active, pending, queueList, k, h);
      Store(next, prev, first, last, firstNew, queueList[k := Head(h)], lastAnimation, active, pending[k := [h]], loc[h := Queued(k)]);
    }

    /** queue's third case (queue.ts:53-58): walks from the head of a non-empty FIFO to its
        tail and links the call after it; the active list is untouched. */
    method Append(k: QueueId, h: Handle)
      requires Valid() && h < |calls| && loc[h] == Free && next[h] == Nil
      requires k in queueList && queueList[k].Head?
      modifies this`next, this`prev, this`first, this`last, this`firstNew, this`queueList, this`lastAnimation, this`active, this`pending, this`loc
      ensures Valid()
      ensures pending == old(pending)[k := old(pending)[k] + [h]] && loc == old(loc)[h := Queued(k)]
      ensures queueList == old(queueList) && lastAnimation == old(lastAnimation)
      ensures active == old(active) && first == old(first) && last == old(last) && firstNew == old(firstNew)
    {
      ghost var s := pending[k];
      assert QueueOk(s, queueList[k], next, loc, k);
      var t := queueList[k].h;
      ghost var j := 0;
      while next[t] != Nil
        invariant 0 <= j < |s| && t == s[j] && Linked(s, next)
        decreases |s| - j
      {
        assert next[s[j]] == Succ(s, j);
        t := next[t].h;
        j := j + 1;
      }
      assert next[s[j]] == Succ(s, j);
      WfQueueAppend(|calls|, next, prev, loc, first, last, active, pending, queueList, k, h, t);
      Store(next[t := Ref(h)], prev[h := Ref(t)], first, last, firstNew, queueList, lastAnimation,
            active, pending[k := s + [h]], loc[h := Queued(k)]);
    }

    /** dequeue's first case (queue.ts:76-80): pops the head `x` of a non-empty FIFO, leaves
        `x.next || null` as the entry and, unless `skip`, activates `x`. */
    method Pop(k: QueueId, skip: bool) returns (x: Handle)
      requires Valid() && k in queueList && queueList[k].Head?
      modifies this`next, this`prev, this`first, this`last, this`firstNew, this`queueList, this`lastAnimation, this`active, this`pending, this`loc
      ensures Valid() && lastAnimation == old(lastAnimation)
      ensures old(MarkerInList()) ==> MarkerInList()
      ensures var s := old(pending)[k];
        && s != [] && x == s[0]
        && pending == old(pending)[k := s[1..]]
        && queueList == old(queueList)[k := if |s| > 1 then Head(s[1]) else Sentinel]
        && (skip ==> active == old(active) && loc == old(loc)[x := Free]
                     && next == old(next) && prev == old(prev) && first == old(first) && last == old(last)
                     && firstNew == old(firstNew))
        && (!skip ==> active == old(active) + [x] && loc == old(loc)[x := Active]
                      && firstNew == (if old(firstNew) == Nil then Ref(x) else old(firstNew)))
    {
      x := queueList[k].h;
      WfPop(|calls|, next, prev, loc, first, last, active, pending, queueList, k);
      ghost var s := pending[k];
      // The successor is read before `animate` overwrites `next`.
      var successor := next[x];
      Store(next, prev, first, last, firstNew, queueList[k := if successor.Ref? then Head(successor.h) else Sentinel],
            lastAnimation, active, pending[k := s[1..]], loc[x := Free]);
      if !skip {
        Animate(x);
      }
    }

    /** dequeue (queue.ts:68-86): pops the head of the element's FIFO and, unless `skip`,
        activates it. On the `null` sentinel the entry is deleted and `null` returned. */
    method Dequeue(e: Element, qarg: QueueArg, skip: bool) returns (res: Popped)
      requires Valid()
      requires qarg != QFalse ==> e in elements
      modifies this`next, this`prev, this`first, this`last, this`firstNew, this`queueList, this`lastAnimation, this`active, this`pending, this`loc
      ensures Valid() && lastAnimation == old(lastAnimation)
      ensures old(MarkerInList()) ==> MarkerInList()
      ensures qarg == QFalse ==> res == PoppedNothing && unchanged(this)
      ensures qarg != QFalse && KeyOf(e, qarg) !in old(queueList) ==> res == PoppedNothing && unchanged(this)
      ensures qarg != QFalse && KeyOf(e, qarg) in old(queueList) && old(queueList)[KeyOf(e, qarg)] == Sentinel ==>
        && res == PoppedNull
        && queueList == old(queueList) - {KeyOf(e, qarg)} && pending == old(pending) - {KeyOf(e, qarg)}
        && active == old(active) && loc == old(loc) && next == old(next) && prev == old(prev)
        && first == old(first) && last == old(last) && firstNew == old(firstNew)
      ensures qarg != QFalse && KeyOf(e, qarg) in old(queueList) && old(queueList)[KeyOf(e, qarg)].Head? ==>
        var k := KeyOf(e, qarg);
        var s := old(pending)[k];
        && s != [] && res == PoppedCall(s[0])
        && pending == old(pending)[k := s[1..]]
        && queueList == old(queueList)[k := if |s| > 1 then Head(s[1]) else Sentinel]
        && (skip ==> active == old(active) && loc == old(loc)[s[0] := Free]
                     && next == old(next) && prev == old(prev) && first == old(first) && last == old(last)
                     && firstNew == old(firstNew))
        && (!skip ==> active == old(active) + [s[0]] && loc == old(loc)[s[0] := Active]
                      && firstNew == (if old(firstNew) == Nil then Ref(s[0]) else old(firstNew)))
    {
      if qarg == QFalse {
        return PoppedNothing;
      }
      var k := KeyOf(e, qarg);
      if k !in queueList {
        return PoppedNothing;
      }
      var entry := queueList[k];
      if entry.Head? {
        var x := Pop(k, skip);
        res := PoppedCall(x);
      } else {
        WfDelete(|calls|, next, prev, loc, first, last, active, pending, queueList, k);
        Store(next, prev, first, last, firstNew, queueList - {k}, lastAnimation, active, pending - {k}, loc);
        res := PoppedNull;
      }
    }

    /** freeAnimationCall (queue.ts:94-113): unlinks an active call, joining its neighbours
        and moving `first`/`last` when it was an end; a queued call whose element still has
        its data is recorded in `lastAnimationList` and loses its links. The call's position
        in the old active list is returned for the proofs. */
    method FreeAnimationCall(h: Handle) returns (ghost i: nat)
      requires Valid() && h in active
      modifies this`next, this`prev, this`first, this`last, this`firstNew, this`queueList, this`lastAnimation, this`active, this`pending, this`loc
      ensures Valid()
      ensures firstNew == old(firstNew) && queueList == old(queueList) && pending == old(pending)
      ensures i < |old(active)| && old(active)[i] == h
      ensures active == old(active)[..i] + old(active)[i + 1..] && loc == old(loc)[h := Free]
      ensures calls[h].queue.Named? && calls[h].element in elements ==>
        && lastAnimation == old(lastAnimation)[QueueId(calls[h].element, calls[h].queue.name) := h]
        && next[h] == Nil && prev[h] == Nil
      ensures !(calls[h].queue.Named? && calls[h].element in elements) ==>
        lastAnimation == old(lastAnimation) && next[h] == old(next)[h] && prev[h] == old(prev)[h]
    {
      i :| 0 <= i < |active| && active[i] == h;
      ActivePosition(active, first, last, next, prev, loc, i);
      var p, n := prev[h], next[h];
      var first', last', next', prev' := first, last, next, prev;
      if first == Ref(h) {
        first' := n;
      } else if p.Ref? {
        next' := next'[p.h := n];
      }
      if last == Ref(h) {
        last' := p;
      } else if n.Ref? {
        prev' := prev'[n.h := p];
      }
      var c := calls[h];
      var lastAnimation' := lastAnimation;
      if c.queue.Named? && c.element in elements {
        lastAnimation' := lastAnimation[QueueId(c.element, c.queue.name) := h];
        next' := next'[h := Nil];
        prev' := prev'[h := Nil];
      }
      ActiveFree(active, first, last, next, prev, loc, i, first', last', next', prev');
      PendingFrame(pending, queueList, next, loc, next', loc[h := Free]);
      Store(next', prev', first', last', firstNew, queueList, lastAnimation', active[..i] + active[i + 1..], pending, loc[h := Free]);
    }

    /** expandTweens: resolves the tweens of every newly added call; here only its effect on
        the `firstNew` marker, which it clears. */
    method ExpandTweens()
      requires Valid()
      modifies this`firstNew
      ensures Valid() && MarkerInList() && firstNew == Nil
    {
      firstNew := Nil;
    }

    /** validateTweens: expands one call's tweens; validating the call at the `firstNew`
        marker moves the marker to its successor. */
    method ValidateTweens(h: Handle)
      requires Valid() && h < |calls|
      modifies this`firstNew, this`log
      ensures Valid()
      ensures log == old(log) + [Validate(h)]
      ensures firstNew == if old(firstNew) == Ref(h) then old(next)[h] else old(firstNew)
      ensures old(MarkerInList()) ==> MarkerInList()
    {
      log := log + [Validate(h)];
      if firstNew == Ref(h) {
        if h in active {
          var i :| 0 <= i < |active| && active[i] == h;
          ActiveSucc(active, next, i);
        }
        firstNew := next[h];
      }
    }

    /** completeCall(call[, stopped]): handed on to the lifecycle code, which is not part of this model. */
    method CompleteCall(h: Handle, stopped: bool)
      requires Valid()
      modifies this`log
      ensures Valid()
      ensures log == old(log) + [Complete(h, stopped)]
    {
      log := log + [Complete(h, stopped)];
    }
  }

  /** A call is never in two lists: an active call is in no pending FIFO. */
  lemma OneList(s: State, h: Handle)
    requires s.Valid() && h in s.active
    ensures forall k | k in s.pending :: h !in s.pending[k]
  {
    var i :| 0 <= i < |s.active| && s.active[i] == h;
    assert s.loc[h] == Active;
    forall k | k in s.pending ensures h !in s.pending[k] {
      assert QueueOk(s.pending[k], s.queueList[k], s.next, s.loc, k);
    }
  }
}
