/** The circular, doubly linked lists that every libusb object is threaded on.

    A list is a head node and the nodes after it; the code never stores a length or an owner, so
    each method takes the sequence of nodes as a ghost argument, and `Ring` says that the links
    spell that sequence.  The `modifies` clauses name the nodes whose links change and no more,
    which is what keeps unrelated lists unchanged. */
module IntrusiveList {

  class Node {
    var prev: Node?
    var next: Node?

    /** A list_head that is not yet initialised. */
    constructor ()
      ensures prev == null && next == null
    {
      prev, next := null, null;
    }
  }

  ghost predicate Distinct(nodes: seq<Node>) {
    forall i, j | 0 <= i < j < |nodes| :: nodes[i] != nodes[j]
  }

  ghost predicate Linked(a: Node, b: Node)
    reads a, b
  {
    a.next == b && b.prev == a
  }

  /** The links of `nodes` form one circle in the order of the sequence. */
  ghost predicate Circle(nodes: seq<Node>)
    reads nodes
  {
    && nodes != [] && Distinct(nodes)
    && (forall i, j | 0 <= i < j < |nodes| && j == i + 1 :: Linked(nodes[i], nodes[j]))
    && Linked(nodes[|nodes| - 1], nodes[0])
  }

  /** The list whose head is `head` holds exactly the nodes of `s`, in order. */
  ghost predicate Ring(head: Node, s: seq<Node>)
    reads {head} + set n | n in s
  {
    Circle([head] + s)
  }

  /** Any member of a circle can serve as its head: `list_add_tail(entry, &cur->list)` inserts
      in front of the member `cur` by treating it as the head of the same circle. */
  lemma Rotate(head: Node, before: seq<Node>, cur: Node, after: seq<Node>)
    requires Ring(head, before + [cur] + after)
    ensures Ring(cur, after + [head] + before)
  {
    var was, all := [head] + (before + [cur] + after), [cur] + (after + [head] + before);
    var k, n := |before| + 1, |was|;
    assert forall i | 0 <= i < n :: all[i] == was[if i < n - k then i + k else i + k - n];
    assert was[n - 1] == all[n - k - 1];
  }

  /** What the first and the last link of a list point at. */
  lemma Neighbours(head: Node, s: seq<Node>)
    requires Ring(head, s)
    ensures head.next == if s == [] then head else s[0]
    ensures head.prev == if s == [] then head else s[|s| - 1]
    ensures head !in s
  {
    var all := [head] + s;
    assert all[0] == head && forall i | 0 <= i < |s| :: s[i] == all[i + 1];
    if s != [] {
      assert all[1] == s[0] && all[|s|] == s[|s| - 1];
    }
  }

  /** Links never leave the list. */
  lemma LinksStayInside(nodes: seq<Node>, i: nat)
    requires Circle(nodes) && i < |nodes|
    ensures nodes[i].next != null && nodes[i].next in nodes
    ensures nodes[i].prev != null && nodes[i].prev in nodes
  {
    if i + 1 < |nodes| { assert Linked(nodes[i], nodes[i + 1]); }
    if i > 0 { assert Linked(nodes[i - 1], nodes[i]); }
  }

  method Init(entry: Node)
    modifies entry
    ensures Ring(entry, [])
  {
    entry.prev, entry.next := entry, entry;
  }

  method IsEmpty(head: Node, ghost s: seq<Node>) returns (empty: bool)
    requires Ring(head, s)
    ensures empty <==> s == []
  {
    Neighbours(head, s);
    empty := head.next == head;
  }

  /** list_add */
  method Add(entry: Node, head: Node, ghost s: seq<Node>)
    requires Ring(head, s) && entry !in [head] + s
    modifies entry, head, head.next
    ensures Ring(head, [entry] + s)
  {
    Neighbours(head, s);
    ghost var was, all := [head] + s, [head] + ([entry] + s);
    entry.next := head.next;
    entry.prev := head;
    head.next.prev := entry;
    head.next := entry;
    assert forall i | 0 <= i < |all| :: all[i] == if i == 0 then head else if i == 1 then entry else was[i - 1];
    forall i, j | 0 <= i < j < |all| && j == i + 1 ensures Linked(all[i], all[j]) {
      if i >= 2 { assert all[i] == was[i - 1] && all[j] == was[i] && was[1] == s[0] != was[i]; }
    }
  }

  /** list_add_tail */
  method AddTail(entry: Node, head: Node, ghost s: seq<Node>)
    requires Ring(head, s) && entry !in [head] + s
    modifies entry, head, head.prev
    ensures Ring(head, s + [entry])
  {
    Neighbours(head, s);
    ghost var was, all := [head] + s, [head] + (s + [entry]);
    entry.next := head;
    entry.prev := head.prev;
    head.prev.next := entry;
    head.prev := entry;
    assert all == was + [entry];
    forall i, j | 0 <= i < j < |all| && j == i + 1 ensures Linked(all[i], all[j]) {
      if j < |was| { assert all[i] == was[i] && all[j] == was[j]; }
    }
  }

  /** list_add_tail with a member of the list in place of the head. */
  method InsertBefore(entry: Node, ghost head: Node, ghost before: seq<Node>, cur: Node, ghost after: seq<Node>)
    requires Ring(head, before + [cur] + after) && entry !in [head] + (before + [cur] + after)
    modifies entry, cur, cur.prev
    ensures Ring(head, before + [entry] + [cur] + after)
  {
    Rotate(head, before, cur, after);
    AddTail(entry, cur, after + [head] + before);
    assert after + [head] + before + [entry] == after + [head] + (before + [entry]);
    Rotate(cur, after, head, before + [entry]);
    assert before + [entry] + [cur] + after == before + [entry] + ([cur] + after);
  }

  /** list_del: the entry does not know its list; its own links become null. */
  method Del(entry: Node, ghost head: Node, ghost before: seq<Node>, ghost after: seq<Node>)
    requires Ring(head, before + [entry] + after)
    modifies entry, entry.next, entry.prev
    ensures Ring(head, before + after)
    ensures entry.next == null && entry.prev == null
  {
    ghost var was, all := [head] + (before + [entry] + after), [head] + (before + after);
    ghost var k, n := |before| + 1, |was|;
    assert was[k] == entry && was[k - 1] in was;
    assert entry.prev == was[k - 1] && entry.next == was[if k + 1 < n then k + 1 else 0];
    entry.next.prev := entry.prev;
    entry.prev.next := entry.next;
    entry.next := null;
    entry.prev := null;
    assert forall i | 0 <= i < |all| :: all[i] == was[if i < k then i else i + 1];
    forall i, j | 0 <= i < j < |all| && j == i + 1 ensures Linked(all[i], all[j]) {
      if j < k { assert all[i] == was[i] && all[j] == was[j]; }
      else if i >= k { assert all[i] == was[j] && all[j] == was[j + 1]; }
    }
    assert Linked(was[n - 1], was[0]) || k == n - 1;
  }

  /** list_cut: the whole contents move to `list`, and `head` is left empty. */
  method Cut(list: Node, head: Node, ghost s: seq<Node>)
    requires Ring(head, s) && list !in [head] + s
    modifies list, head, head.next, head.prev
    ensures Ring(list, s) && Ring(head, [])
  {
    Neighbours(head, s);
    ghost var was, all := [head] + s, [list] + s;
    if head.next == head {
      Init(list);
      return;
    }
    list.next := head.next;
    list.next.prev := list;
    list.prev := head.prev;
    list.prev.next := list;
    Init(head);
    assert forall i | 0 <= i < |all| :: all[i] == if i == 0 then list else was[i];
    forall i, j | 0 <= i < j < |all| && j == i + 1 ensures Linked(all[i], all[j]) {
      if i >= 1 {
        assert all[i] == was[i] && all[j] == was[j];
        assert was[1] == s[0] != was[j] && was[|s|] == s[|s| - 1] != was[i];
      }
    }
  }

  /** list_splice_front: the contents of `list` go in front of the contents of `head`.
      This holds if and only if `list` is not empty; an empty `list` itself ends up linked
      behind `head`, so callers must test for emptiness first, as handle_event_trigger does. */
  method SpliceFront(list: Node, head: Node, ghost s: seq<Node>, ghost t: seq<Node>)
    requires Ring(list, s) && Ring(head, t)
    requires forall n | n in [list] + s :: n !in [head] + t
    modifies list, list.next, list.prev, head, head.next
    ensures Ring(head, s + t) <==> s != []
    ensures s == [] ==> head.next == list
  {
    Neighbours(list, s);
    Neighbours(head, t);
    ghost var a, b, c := [list] + s, [head] + t, [head] + (s + t);
    forall i, j | 0 <= i < |a| && 0 <= j < |b| ensures a[i] != b[j] {
      assert a[i] in a && b[j] in b;
    }
    assert a[0] == list && b[0] == head && a[|a| - 1] == list.prev && b[if t == [] then 0 else 1] == head.next;
    assert s != [] ==> a[1] == list.next;
    list.next.prev := head;
    list.prev.next := head.next;
    head.next.prev := list.prev;
    head.next := list.next;
    if s == [] {
      if Ring(head, s + t) {
        Neighbours(head, s + t);
        assert false;
      }
    } else {
      assert forall i | 0 <= i < |c| :: c[i] == if i == 0 then head else if i <= |s| then a[i] else b[i - |s|];
      forall i, j | 0 <= i < j < |c| && j == i + 1 ensures Linked(c[i], c[j]) {
        if 1 <= i && j <= |s| {
          assert c[i] == a[i] && c[j] == a[j] && a[1] == s[0] != a[j] && a[|s|] == s[|s| - 1] != a[i];
        } else if i > |s| {
          assert c[i] == b[i - |s|] && c[j] == b[j - |s|] && b[1] == t[0] != b[j - |s|];
        }
      }
    }
  }

  ghost predicate Apart(a: seq<Node>, b: seq<Node>) {
    forall x | x in a :: x !in b
  }

  lemma ApartNodes(local: Node, s: seq<Node>, head: Node, t: seq<Node>)
    requires Apart([local] + s, [head] + t)
    ensures local != head && local !in t && head !in s
    ensures forall x | x in t :: x !in s
    ensures forall x | x in s :: x !in t
  {
    var a, b := [local] + s, [head] + t;
    assert local in a && head in b;
    assert forall x | x in s :: x in a;
    assert forall x | x in t :: x in b;
  }

  /** The first entry of a list is unlinked. */
  method UnlinkFirst(local: Node, ghost s: seq<Node>) returns (entry: Node)
    requires Ring(local, s) && s != []
    modifies local, s
    ensures entry == s[0] && entry.next == null && entry.prev == null
    ensures Ring(local, s[1..])
  {
    Neighbours(local, s);
    entry := local.next;
    assert s == [] + [s[0]] + s[1..];
    assert ([local] + s)[1] == entry;
    LinksStayInside([local] + s, 1);
    Del(entry, local, [], s[1..]);
    assert [] + s[1..] == s[1..];
  }

  /** While one thread works off its local list, others append to the original one: an entry is taken
      from the front of the first, or a node arrives at the back of the second. */
  datatype Round = Take | Arrive(node: Node)

  function Taken(rounds: seq<Round>): nat {
    if rounds == [] then 0 else Taken(rounds[..|rounds| - 1]) + if rounds[|rounds| - 1].Take? then 1 else 0
  }

  function Arrived(rounds: seq<Round>): seq<Node> {
    if rounds == [] then []
    else Arrived(rounds[..|rounds| - 1]) + if rounds[|rounds| - 1].Take? then [] else [rounds[|rounds| - 1].node]
  }

  lemma {:induction false} EarlierRounds(rounds: seq<Round>, i: nat)
    requires i < |rounds|
    ensures Taken(rounds[..i]) + (if rounds[i].Take? then 1 else 0) <= Taken(rounds)
    ensures Arrived(rounds[..i]) + (if rounds[i].Take? then [] else [rounds[i].node]) <= Arrived(rounds)
    ensures Taken(rounds[..i + 1]) == Taken(rounds[..i]) + if rounds[i].Take? then 1 else 0
    ensures Arrived(rounds[..i + 1]) == Arrived(rounds[..i]) + if rounds[i].Take? then [] else [rounds[i].node]
  {
    var n := |rounds| - 1;
    assert rounds[..i + 1][..i] == rounds[..i];
    if i < n {
      EarlierRounds(rounds[..n], i);
      assert rounds[..n][..i] == rounds[..i];
    } else {
      assert rounds[..i + 1] == rounds;
    }
  }

  /** The two lists have no node in common, nor has either with what is still to arrive. */
  ghost predicate Disjoint(local: Node, head: Node, s: seq<Node>, arrivals: seq<Node>) {
    && Distinct(s) && Distinct(arrivals) && Apart(arrivals, s)
    && local !in arrivals && local !in s && head !in arrivals && head != local && head !in s
  }

  lemma PartsAreApart(local: Node, head: Node, s: seq<Node>, k: nat, arrivals: seq<Node>, i: nat)
    requires Disjoint(local, head, s, arrivals) && k <= |s| && i <= |arrivals|
    ensures Apart([local] + s[k..], [head] + arrivals[..i])
    ensures i < |arrivals| ==> arrivals[i] !in [local] + s[k..] && arrivals[i] !in [head] + arrivals[..i]
  {
    assert forall x | x in s[k..] :: x in s;
    assert forall x | x in arrivals[..i] :: x in arrivals;
  }

  /** A node joins a list that has nothing in common with another. */
  method ArriveApart(node: Node, head: Node, ghost t: seq<Node>, ghost local: Node, ghost s: seq<Node>)
    requires Ring(head, t) && Ring(local, s) && Apart([local] + s, [head] + t)
    requires node !in [local] + s && node !in [head] + t
    modifies node, head, t
    ensures Ring(head, t + [node]) && Ring(local, s)
  {
    ApartNodes(local, s, head, t);
    LinksStayInside([head] + t, 0);
    assert head.prev == head || head.prev in t;
    AddTail(node, head, t);
  }

  /** An entry leaves a list that has nothing in common with another. */
  method TakeApart(local: Node, ghost s: seq<Node>, ghost head: Node, ghost t: seq<Node>) returns (entry: Node)
    requires Ring(local, s) && s != [] && Ring(head, t) && Apart([local] + s, [head] + t)
    modifies local, s
    ensures entry == s[0] && Ring(local, s[1..]) && Ring(head, t)
  {
    ApartNodes(local, s, head, t);
    entry := UnlinkFirst(local, s);
  }

  /** The completion loop of handle_event_trigger on the links, with arrivals in between: entries
      are handed on from the front of the local list, in order. */
  method Process(local: Node, head: Node, ghost s: seq<Node>, rounds: seq<Round>) returns (handedOn: seq<Node>)
    requires Ring(local, s) && Ring(head, []) && Taken(rounds) <= |s| && Disjoint(local, head, s, Arrived(rounds))
    modifies local, head, s, Arrived(rounds)
    ensures handedOn == s[..Taken(rounds)]
    ensures Ring(local, s[Taken(rounds)..]) && Ring(head, Arrived(rounds))
  {
    hide Ring, Disjoint;
    var i := 0;
    handedOn := [];
    assert s[0..] == s && s[..0] == [];
    while i < |rounds|
      invariant i <= |rounds| && Taken(rounds[..i]) <= |s| && handedOn == s[..Taken(rounds[..i])]
      invariant Arrived(rounds[..i]) <= Arrived(rounds)
      invariant Ring(local, s[Taken(rounds[..i])..]) && Ring(head, Arrived(rounds[..i]))
    {
      ghost var k, arrived, all := Taken(rounds[..i]), Arrived(rounds[..i]), Arrived(rounds);
      EarlierRounds(rounds, i);
      PartsAreApart(local, head, s, k, all, |arrived|);
      assert all[..|arrived|] == arrived;
      match rounds[i] {
        case Take =>
          assert forall x | x in s[k..] :: x in s;
          var entry := TakeApart(local, s[k..], head, arrived);
          assert s[k..][1..] == s[k + 1..] && arrived + [] == arrived;
          handedOn := handedOn + [entry];
        case Arrive(node) =>
          assert node == all[|arrived|];
          assert forall x | x in arrived :: x in all;
          ArriveApart(node, head, arrived, local, s[k..]);
      }
      i := i + 1;
    }
    assert rounds[..i] == rounds;
  }

  /** After the loop: only a non-empty remainder is spliced back. */
  method SpliceLeftOver(local: Node, head: Node, ghost rest: seq<Node>, ghost arrivals: seq<Node>)
    requires Ring(local, rest) && Ring(head, arrivals) && Apart([local] + rest, [head] + arrivals)
    modifies local, head, rest, arrivals
    ensures Ring(head, rest + arrivals)
  {
    Neighbours(local, rest);
    Neighbours(head, arrivals);
    var done := IsEmpty(local, rest);
    if !done {
      SpliceFront(local, head, rest, arrivals);
    } else {
      assert rest + arrivals == arrivals;
    }
  }

  lemma MembersAreDistinct(head: Node, s: seq<Node>)
    requires Ring(head, s)
    ensures Distinct(s) && head !in s
  {
    assert forall i | 0 <= i < |s| :: s[i] == ([head] + s)[i + 1];
    Neighbours(head, s);
  }

  /** The life of ctx->completed_transfers during handle_event_trigger, on the links themselves:
      the list is cut over to a local head, entries are unlinked one by one while other threads
      append to the original list, and what is left over after an error is spliced back in front
      of the newcomers.  Entries are handed on in order, each at most once. */
  method CutProcessSplice(local: Node, head: Node, ghost s: seq<Node>, rounds: seq<Round>) returns (handedOn: seq<Node>)
    requires Ring(head, s) && Taken(rounds) <= |s| && Distinct(Arrived(rounds)) && Apart(Arrived(rounds), s)
    requires local !in Arrived(rounds) && local !in s && head !in Arrived(rounds) && head != local
    modifies local, head, s, Arrived(rounds)
    ensures handedOn == s[..Taken(rounds)]
    ensures Ring(head, s[Taken(rounds)..] + Arrived(rounds))
  {
    MembersAreDistinct(head, s);
    Neighbours(head, s);
    Cut(local, head, s);
    handedOn := Process(local, head, s, rounds);
    ghost var k, arrivals := Taken(rounds), Arrived(rounds);
    assert Apart([local] + s[k..], [head] + arrivals) by {
      PartsAreApart(local, head, s, k, arrivals, |arrivals|);
      assert arrivals[..|arrivals|] == arrivals;
    }
    assert forall x | x in s[k..] :: x in s;
    SpliceLeftOver(local, head, s[k..], arrivals);
  }
}
