/** client.c: compaction of the client table and shuffling of the processing order. */
module ClientTable {
  import opened Pipeline

  const ACCEPTING_SOCKETS := 18

  /** The place of client i after compaction. */
  function Rank(conns: seq<Conn>, i: nat): nat
    requires i <= |conns|
  {
    |LiveOnly(conns[..i])|
  }

  /** What compaction leaves in the owner index: it moves only along with a live client. */
  function MovedOwner(conns: seq<Conn>, upTo: nat, owner: int): int
    requires upTo <= |conns|
  {
    if 0 <= owner < upTo && conns[owner].live then Rank(conns, owner) else owner
  }

  lemma RankNext(conns: seq<Conn>, i: nat)
    requires i < |conns|
    ensures LiveOnly(conns[..i + 1]) == LiveOnly(conns[..i]) + if conns[i].live then [conns[i]] else []
    ensures Rank(conns, i) <= i
  {
    assert conns[..i + 1][..i] == conns[..i];
  }

  lemma RankGrows(conns: seq<Conn>, i: nat, j: nat)
    requires i < j <= |conns| && conns[i].live
    ensures Rank(conns, i) < Rank(conns, j)
  {
    LiveRankGrows(conns, i, j);
  }

  /** Where the owner index goes in one step of the pass. */
  lemma MovedNext(conns: seq<Conn>, i: nat, shortOwner: int)
    requires i < |conns|
    ensures Rank(conns, i + 1) == Rank(conns, i) + if conns[i].live then 1 else 0
    ensures Rank(conns, i) <= i
    ensures MovedOwner(conns, i + 1, shortOwner)
      == if conns[i].live && MovedOwner(conns, i, shortOwner) == i then Rank(conns, i)
        else MovedOwner(conns, i, shortOwner)
  {
    hide LiveOnly;
    RankNext(conns, i);
    if 0 <= shortOwner < i && conns[shortOwner].live { RankNext(conns, shortOwner); }
  }

  /** The poll entry that belongs to client k. */
  function PollOf<P>(polls: seq<P>, k: nat): P
    requires 18 + k < |polls|
  {
    polls[18 + k]
  }

  /** The pass has looked at the clients below i: survivors are in front, the others wait unchanged. */
  ghost predicate Compacting<P>(conns: seq<Conn>, polls: seq<P>, clientsNow: seq<Conn>, pollsNow: seq<P>, i: nat,
                                survivors: nat)
  {
    && survivors <= i <= |conns| <= |clientsNow| && |polls| == |pollsNow| && ACCEPTING_SOCKETS + |conns| <= |polls|
    && survivors == Rank(conns, i)
    && clientsNow[..survivors] == LiveOnly(conns[..i])
    && (forall k | i <= k < |conns| :: clientsNow[k] == conns[k])
    && (forall k | i <= k < |conns| :: PollOf(pollsNow, k) == PollOf(polls, k))
    && pollsNow[..ACCEPTING_SOCKETS] == polls[..ACCEPTING_SOCKETS]
    && (forall k | 0 <= k < i && conns[k].live ::
          Rank(conns, k) < survivors && PollOf(pollsNow, Rank(conns, k)) == PollOf(polls, k))
  }

  lemma SkipDead<P>(conns: seq<Conn>, polls: seq<P>, clientsNow: seq<Conn>, pollsNow: seq<P>, i: nat, survivors: nat)
    requires Compacting(conns, polls, clientsNow, pollsNow, i, survivors) && i < |conns| && !conns[i].live
    ensures Compacting(conns, polls, clientsNow, pollsNow, i + 1, survivors)
  {
    RankNext(conns, i);
  }

  lemma MoveLive<P>(conns: seq<Conn>, polls: seq<P>, clientsNow: seq<Conn>, pollsNow: seq<P>, i: nat, survivors: nat)
    requires Compacting(conns, polls, clientsNow, pollsNow, i, survivors) && i < |conns| && conns[i].live
    ensures Compacting(conns, polls, clientsNow[survivors := clientsNow[i]],
                       pollsNow[ACCEPTING_SOCKETS + survivors := PollOf(pollsNow, i)], i + 1, survivors + 1)
  {
    RankNext(conns, i);
    var c := clientsNow[survivors := clientsNow[i]];
    var p := pollsNow[ACCEPTING_SOCKETS + survivors := PollOf(pollsNow, i)];
    assert c[..survivors + 1] == clientsNow[..survivors] + [conns[i]];
    assert p[..ACCEPTING_SOCKETS] == pollsNow[..ACCEPTING_SOCKETS];
    forall k | i + 1 <= k < |conns|
      ensures PollOf(p, k) == PollOf(polls, k)
    {
      assert PollOf(pollsNow, k) == PollOf(polls, k);
    }
    forall k | 0 <= k < i + 1 && conns[k].live
      ensures Rank(conns, k) < survivors + 1 && PollOf(p, Rank(conns, k)) == PollOf(polls, k)
    {
      if k < i {
        RankGrows(conns, k, i);
        assert PollOf(pollsNow, Rank(conns, k)) == PollOf(polls, k);
      } else {
        assert PollOf(pollsNow, i) == PollOf(polls, i);
      }
    }
  }

  /** clients_remove_finalized: one pass over both arrays, survivors move to the front, each with its own poll entry. */
  method RemoveFinalized<P>(clients: array<Conn>, size: nat, polls: array<P>, pollsSize: nat, shortOwner: int)
    returns (newSize: nat, newPollsSize: nat, owner: int)
    requires size <= clients.Length && pollsSize == ACCEPTING_SOCKETS + size <= polls.Length
    requires clients as object != polls as object
    modifies clients, polls
    ensures newSize <= size && clients[..newSize] == LiveOnly(old(clients[..size]))
    ensures newPollsSize == 18 + newSize
    ensures owner == MovedOwner(old(clients[..size]), size, shortOwner)
    ensures polls[..18] == old(polls[..18])
    ensures forall i | 0 <= i < size && old(clients[i]).live ::
      && Rank(old(clients[..size]), i) < newSize
      && PollOf(polls[..], Rank(old(clients[..size]), i)) == PollOf(old(polls[..]), i)
  {
    hide Compacting, LiveOnly, Rank;
    ghost var conns := clients[..size];
    ghost var oldPolls := polls[..];
    var survivors := 0;
    owner := shortOwner;
    var i := 0;
    CompactingStart(conns, oldPolls, clients[..]);
    while i < size
      invariant 0 <= survivors <= i <= size
      invariant Compacting(conns, oldPolls, clients[..], polls[..], i, survivors)
      invariant owner == MovedOwner(conns, i, shortOwner)
    {
      Looking(conns, oldPolls, clients[..], polls[..], i, survivors, shortOwner);
      if clients[i].live {
        ghost var clientsNow, pollsNow := clients[..], polls[..];
        if i == owner { owner := owner - (i - survivors); }
        if survivors != i {
          clients[survivors] := clients[i];
          polls[ACCEPTING_SOCKETS + survivors] := polls[ACCEPTING_SOCKETS + i];
        }
        assert clients[..] == clientsNow[survivors := clientsNow[i]];
        assert polls[..] == pollsNow[ACCEPTING_SOCKETS + survivors := PollOf(pollsNow, i)];
        survivors := survivors + 1;
      }
      i := i + 1;
    }
    CompactingDone(conns, oldPolls, clients[..], polls[..], survivors);
    assert clients[..survivors] == clients[..][..survivors];
    newSize := size - (i - survivors);
    newPollsSize := pollsSize - (i - survivors);
  }

  lemma CompactingStart<P>(conns: seq<Conn>, polls: seq<P>, clients: seq<Conn>)
    requires conns <= clients && ACCEPTING_SOCKETS + |conns| <= |polls|
    ensures Compacting(conns, polls, clients, polls, 0, 0)
  {
  }

  /** What one step of the pass does, and what it does to the owner index. */
  lemma Looking<P>(conns: seq<Conn>, polls: seq<P>, clientsNow: seq<Conn>, pollsNow: seq<P>, i: nat, survivors: nat,
                   shortOwner: int)
    requires Compacting(conns, polls, clientsNow, pollsNow, i, survivors) && i < |conns|
    ensures clientsNow[i] == conns[i]
    ensures !conns[i].live ==> Compacting(conns, polls, clientsNow, pollsNow, i + 1, survivors)
    ensures conns[i].live ==>
      Compacting(conns, polls, clientsNow[survivors := clientsNow[i]],
                 pollsNow[ACCEPTING_SOCKETS + survivors := PollOf(pollsNow, i)], i + 1, survivors + 1)
    ensures MovedOwner(conns, i + 1, shortOwner)
         == if conns[i].live && MovedOwner(conns, i, shortOwner) == i then survivors
           else MovedOwner(conns, i, shortOwner)
  {
    if conns[i].live { MoveLive(conns, polls, clientsNow, pollsNow, i, survivors); }
    else { SkipDead(conns, polls, clientsNow, pollsNow, i, survivors); }
    MovedNext(conns, i, shortOwner);
  }

  lemma CompactingDone<P>(conns: seq<Conn>, polls: seq<P>, clientsNow: seq<Conn>, pollsNow: seq<P>, survivors: nat)
    requires Compacting(conns, polls, clientsNow, pollsNow, |conns|, survivors)
    ensures survivors <= |conns| && clientsNow[..survivors] == LiveOnly(conns)
    ensures pollsNow[..ACCEPTING_SOCKETS] == polls[..ACCEPTING_SOCKETS]
    ensures forall i | 0 <= i < |conns| && conns[i].live ::
      Rank(conns, i) < survivors && PollOf(pollsNow, Rank(conns, i)) == PollOf(polls, i)
  {
    assert conns[..|conns|] == conns;
  }

  /** The survivor at Rank(i) is client i: together with its poll entry it is the same client as before. */
  lemma SurvivorKeepsPlace(conns: seq<Conn>, i: nat)
    requires i < |conns| && conns[i].live
    ensures Rank(conns, i) < |LiveOnly(conns)| && LiveOnly(conns)[Rank(conns, i)] == conns[i]
  {
    LiveOnlyAt(conns, i);
  }

  /** The pass over the table is the Compact step of the pipeline. */
  lemma CompactionRefines(s: State)
    requires -1 <= s.owner && Enabled(s, Compact)
    ensures Apply(s, Compact) == s.(conns := LiveOnly(s.conns), owner := MovedOwner(s.conns, |s.conns|, s.owner))
  {
  }

  // ---- Shuffling ----

  function Identity(n: nat): (s: seq<nat>)
    ensures |s| == n
  {
    seq(n, i => i)
  }

  function Swap<T>(s: seq<T>, i: nat, j: nat): (r: seq<T>)
    requires i < |s| && j < |s|
    ensures |r| == |s|
  {
    s[i := s[j]][j := s[i]]
  }

  /** One random number per position: choices[i] <= i. */
  predicate Choices(choices: seq<nat>) {
    forall i | 0 <= i < |choices| :: choices[i] <= i
  }

  /** The swaps for positions i, i-1, ..., 1. */
  function Shuffled(s: seq<nat>, i: nat, choices: seq<nat>): (r: seq<nat>)
    requires i < |s| == |choices| && Choices(choices)
    ensures |r| == |s|
    decreases i
  {
    if i == 0 then s else Shuffled(Swap(s, i, choices[i]), i - 1, choices)
  }

  predicate Distinct(s: seq<nat>) {
    forall i, j | 0 <= i < j < |s| :: s[i] != s[j]
  }

  /** clients_shuffle: Fisher-Yates over the shuffle_index fields. */
  method Shuffle(index: array<nat>, choices: seq<nat>)
    requires |choices| == index.Length && Choices(choices)
    modifies index
    ensures index.Length == 0 || index[..] == Shuffled(Identity(index.Length), index.Length - 1, choices)
  {
    var i := 0;
    while i < index.Length
      invariant 0 <= i <= index.Length
      invariant forall k | 0 <= k < i :: index[k] == k
    {
      index[i] := i;
      i := i + 1;
    }
    if index.Length == 0 { return; }
    assert index[..] == Identity(index.Length);
    i := index.Length - 1;
    while i >= 1
      invariant 0 <= i < index.Length
      invariant Shuffled(index[..], i, choices) == Shuffled(Identity(index.Length), index.Length - 1, choices)
    {
      var j := choices[i];
      ghost var before := index[..];
      var shuffleIndex := index[i];
      index[i] := index[j];
      index[j] := shuffleIndex;
      assert index[..] == Swap(before, i, j);
      i := i - 1;
    }
  }

  lemma SwapKeeps(s: seq<nat>, i: nat, j: nat)
    requires i < |s| && j < |s|
    ensures multiset(Swap(s, i, j)) == multiset(s)
    ensures Distinct(s) ==> Distinct(Swap(s, i, j))
  {
  }

  /** Shuffling rearranges, and leaves the positions above i alone. */
  lemma {:induction false} ShuffledKeeps(s: seq<nat>, i: nat, choices: seq<nat>)
    requires i < |s| == |choices| && Choices(choices) && Distinct(s)
    ensures var r := Shuffled(s, i, choices);
      multiset(r) == multiset(s) && Distinct(r) && r[i + 1..] == s[i + 1..]
    decreases i
  {
    if i > 0 {
      SwapKeeps(s, i, choices[i]);
      var t := Swap(s, i, choices[i]);
      ShuffledKeeps(t, i - 1, choices);
      assert t[i..][1..] == t[i + 1..] == s[i + 1..];
      assert Shuffled(s, i, choices)[i..][1..] == Shuffled(s, i, choices)[i + 1..];
    }
  }

  /** Every client is processed exactly once per round. */
  lemma ProcessedOnce(n: nat, choices: seq<nat>, client: nat) returns (turn: nat)
    requires client < n == |choices| && Choices(choices)
    ensures var order := Shuffled(Identity(n), n - 1, choices);
      && turn < n && order[turn] == client
      && (forall k | 0 <= k < n && order[k] == client :: k == turn)
      && (forall k | 0 <= k < n :: order[k] < n)
  {
    ShuffledKeeps(Identity(n), n - 1, choices);
    var order := Shuffled(Identity(n), n - 1, choices);
    assert Identity(n)[client] == client;
    assert client in multiset(Identity(n));
    assert client in order;
    turn :| 0 <= turn < n && order[turn] == client;
    forall k | 0 <= k < n
      ensures order[k] < n
    {
      assert order[k] in multiset(order);
      assert order[k] in Identity(n);
    }
  }

  /** The first swap decides what ends up at position i. */
  lemma TopFixed(s: seq<nat>, i: nat, choices: seq<nat>)
    requires 0 < i < |s| == |choices| && Choices(choices) && Distinct(s)
    ensures Shuffled(s, i, choices)[i] == s[choices[i]]
  {
    hide Swap, Distinct;
    SwapKeeps(s, i, choices[i]);
    SwapAt(s, i, choices[i]);
    var t := Swap(s, i, choices[i]);
    ShuffledKeeps(t, i - 1, choices);
    assert Shuffled(t, i - 1, choices)[i..][0] == t[i..][0];
  }

  lemma SwapAt(s: seq<nat>, i: nat, j: nat)
    requires i < |s| && j < |s|
    ensures Swap(s, i, j)[i] == s[j]
  {
  }

  /** Different random numbers give different orders. */
  lemma {:induction false} ShuffleInjective(s: seq<nat>, i: nat, a: seq<nat>, b: seq<nat>)
    requires i < |s| == |a| == |b| && Choices(a) && Choices(b) && Distinct(s)
    requires Shuffled(s, i, a) == Shuffled(s, i, b)
    ensures forall k | 1 <= k <= i :: a[k] == b[k]
    decreases i
  {
    if i > 0 {
      TopFixed(s, i, a);
      TopFixed(s, i, b);
      assert a[i] == b[i];
      SwapKeeps(s, i, a[i]);
      ShuffleInjective(Swap(s, i, a[i]), i - 1, a, b);
    }
  }

  lemma LastPosition(s: seq<nat>, target: seq<nat>)
    requires 0 < |s| == |target| && multiset(target) == multiset(s) && target[1..] == s[1..]
    ensures s == target
  {
    assert s == [s[0]] + s[1..] && target == [target[0]] + target[1..];
    assert multiset(s) == multiset{s[0]} + multiset(s[1..]);
    assert multiset(target) == multiset{target[0]} + multiset(s[1..]);
    assert multiset(s) - multiset(s[1..]) == multiset{s[0]};
    assert multiset(target) - multiset(s[1..]) == multiset{target[0]};
    assert target[0] in multiset{s[0]};
  }

  /** Every order is reached by some random numbers. */
  lemma {:induction false} ShuffleSurjective(s: seq<nat>, i: nat, target: seq<nat>) returns (choices: seq<nat>)
    requires i < |s| == |target| && Distinct(s) && multiset(target) == multiset(s)
    requires target[i + 1..] == s[i + 1..]
    ensures |choices| == |s| && Choices(choices)
    ensures Shuffled(s, i, choices) == target
    decreases i
  {
    if i == 0 {
      choices := seq(|s|, _ => 0);
      LastPosition(s, target);
    } else {
      var j := TargetPosition(s, i, target);
      SwapKeeps(s, i, j);
      var t := Swap(s, i, j);
      SwapTop(s, i, j, target);
      var rest := ShuffleSurjective(t, i - 1, target);
      choices := rest[i := j];
      ShuffledIgnores(t, i - 1, rest, i, j);
    }
  }

  lemma SwapTop(s: seq<nat>, i: nat, j: nat, target: seq<nat>)
    requires j <= i < |s| == |target| && s[j] == target[i] && target[i + 1..] == s[i + 1..]
    ensures target[i..] == Swap(s, i, j)[i..]
  {
    var t := Swap(s, i, j);
    assert target[i..] == [target[i]] + target[i + 1..];
    assert t[i..] == [t[i]] + s[i + 1..];
  }

  /** What belongs at position i is still at or below it. */
  lemma TargetPosition(s: seq<nat>, i: nat, target: seq<nat>) returns (j: nat)
    requires i < |s| == |target| && Distinct(s) && multiset(target) == multiset(s)
    requires target[i + 1..] == s[i + 1..]
    ensures j <= i && s[j] == target[i]
  {
    assert target[i] in multiset(target);
    assert target[i] in s;
    j :| 0 <= j < |s| && s[j] == target[i];
    DistinctByMultiset(s, target);
    forall k | i < k < |s|
      ensures s[k] != target[i]
    {
      assert target[i + 1..][k - i - 1] == s[i + 1..][k - i - 1];
    }
  }

  lemma {:induction false} DistinctByMultiset(s: seq<nat>, t: seq<nat>)
    requires Distinct(s) && multiset(s) == multiset(t)
    ensures Distinct(t)
  {
    forall i, j | 0 <= i < j < |t|
      ensures t[i] != t[j]
    {
      if t[i] == t[j] {
        assert t == t[..i] + [t[i]] + t[i + 1..j] + [t[j]] + t[j + 1..];
        assert multiset(t)[t[i]] >= 2;
        DistinctOnce(s, t[i]);
      }
    }
  }

  lemma {:induction false} DistinctOnce(s: seq<nat>, x: nat)
    requires Distinct(s)
    ensures multiset(s)[x] <= 1
  {
    if s != [] {
      assert s == [s[0]] + s[1..];
      assert forall i, j | 0 <= i < j < |s[1..]| :: s[1..][i] == s[i + 1] && s[1..][j] == s[j + 1];
      DistinctOnce(s[1..], x);
      assert x == s[0] ==> x !in s[1..];
    }
  }

  /** The swaps below position k do not look at the choice for k. */
  lemma {:induction false} ShuffledIgnores(s: seq<nat>, i: nat, choices: seq<nat>, k: nat, j: nat)
    requires i < |s| == |choices| && Choices(choices) && i < k < |choices| && j <= k
    ensures Choices(choices[k := j]) && Shuffled(s, i, choices[k := j]) == Shuffled(s, i, choices)
    decreases i
  {
    if i > 0 { ShuffledIgnores(Swap(s, i, choices[i]), i - 1, choices, k, j); }
  }
}
