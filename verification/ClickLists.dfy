/**
 One undisturbed pass of `RedisClickQueue.processBatch` (src/lib/queue.ts) over
 mutable Redis lists: the claim loops in closed form, and what a pass as a whole
 takes away.  `ClickQueueRuns` is about passes that are disturbed.

 A pass moves what was left in processing back to the queue, claims up to a batch,
 persists the clicks, sets malformed items aside, and removes what it claimed, one
 occurrence an item.  If persisting fails, nothing is removed.
 */
module ClickLists {
  import opened ClickStore
  import opened ClickQueueRuns

  const BATCH_SIZE := 1000

  function Min(a: nat, b: nat): nat {
    if a < b then a else b
  }

  function Reversed(s: seq<Payload>): seq<Payload> {
    if s == [] then [] else [Last(s)] + Reversed(Front(s))
  }

  function RemoveEach(list: seq<Payload>, items: seq<Payload>): seq<Payload> {
    if items == [] then list else RemoveFirst(RemoveEach(list, Front(items)), Last(items))
  }

  lemma {:induction false} RemoveFirstMultiset(s: seq<Payload>, x: Payload)
    ensures multiset(RemoveFirst(s, x)) == multiset(s) - multiset{x}
  {
    if s != [] {
      assert s == [s[0]] + s[1..];
      if s[0] != x {
        RemoveFirstMultiset(s[1..], x);
      }
    }
  }

  lemma {:induction false} RemoveEachMultiset(list: seq<Payload>, items: seq<Payload>)
    ensures multiset(RemoveEach(list, items)) == multiset(list) - multiset(items)
  {
    if items != [] {
      assert items == Front(items) + [Last(items)];
      RemoveEachMultiset(list, Front(items));
      RemoveFirstMultiset(RemoveEach(list, Front(items)), Last(items));
    }
  }

  lemma {:induction false} ReversedMultiset(s: seq<Payload>)
    ensures multiset(Reversed(s)) == multiset(s)
  {
    if s != [] {
      assert s == Front(s) + [Last(s)];
      ReversedMultiset(Front(s));
    }
  }

  lemma {:induction false} ReversedCons(x: Payload, s: seq<Payload>)
    ensures Reversed([x] + s) == Reversed(s) + [x]
  {
    if s == [] {
      assert [x] + s == [x];
      assert Front([x]) == [];
    } else {
      assert Front([x] + s) == [x] + Front(s);
      assert Last([x] + s) == Last(s);
      ReversedCons(x, Front(s));
    }
  }

  function GoodOnly(items: seq<Payload>): seq<Payload> {
    if items == [] then []
    else GoodOnly(Front(items)) + if Last(items).Good? then [Last(items)] else []
  }

  lemma {:induction false} GoodAndMalformed(items: seq<Payload>)
    ensures multiset(GoodOnly(items)) + multiset(Malformed(items)) == multiset(items)
    ensures Clicks(items) == [] ==> GoodOnly(items) == []
  {
    if items != [] {
      assert items == Front(items) + [Last(items)];
      GoodAndMalformed(Front(items));
    }
  }

  class RedisLists {
    var queue: seq<Payload>
    var processing: seq<Payload>
    var dlq: seq<Payload>

    constructor ()
      ensures queue == [] && processing == [] && dlq == []
    {
      queue, processing, dlq := [], [], [];
    }

    method Push(p: Payload)
      modifies this
      ensures queue == [p] + old(queue) && processing == old(processing) && dlq == old(dlq)
    {
      queue := [p] + queue;
    }

    /** Give back up to 1000 items left by a worker that died; they keep their order. */
    method RecoverBatch()
      modifies this`queue, this`processing
      ensures processing == LeftBehind(old(processing))
      ensures queue == Recovered(old(queue), old(processing))
    {
      ghost var p0, q0 := processing, queue;
      var i := 0;
      assert p0[|p0|..] + q0 == q0;
      while i < BATCH_SIZE && processing != []
        invariant 0 <= i <= Min(BATCH_SIZE, |p0|)
        invariant processing == p0[..|p0| - i] && queue == p0[|p0| - i..] + q0
      {
        RecoverOne(p0, q0, i);
        queue := [Last(processing)] + queue;
        processing := Front(processing);
        i := i + 1;
      }
    }

    /** Claim up to 1000 items, oldest first. */
    method ClaimBatch() returns (items: seq<Payload>)
      modifies this`queue, this`processing
      ensures queue == LeftBehind(old(queue))
      ensures processing == TakenFrom(old(queue)) + old(processing)
      ensures items == Reversed(TakenFrom(old(queue)))
    {
      hide Reversed, Kept, Took, Last, Front;
      ghost var p0, q0 := processing, queue;
      items := [];
      var i := 0;
      NothingClaimed(q0, p0);
      while i < BATCH_SIZE && queue != []
        invariant 0 <= i <= Min(BATCH_SIZE, |q0|)
        invariant queue == Kept(q0, i) && processing == Took(q0, i) + p0
        invariant items == Reversed(Took(q0, i))
      {
        KeptLength(q0, i);
        var claimed := Last(queue);
        ClaimOne(q0, p0, i);
        processing := [claimed] + processing;
        queue := Front(queue);
        items := items + [claimed];
        i := i + 1;
      }
      KeptLength(q0, i);
    }

    method Acknowledge(items: seq<Payload>)
      modifies this`processing
      ensures processing == RemoveEach(old(processing), items)
    {
      for i := 0 to |items|
        invariant processing == RemoveEach(old(processing), items[..i])
      {
        assert Front(items[..i + 1]) == items[..i];
        processing := RemoveFirst(processing, items[i]);
      }
      assert items[..|items|] == items;
    }

    method Quarantine(items: seq<Payload>)
      modifies this`dlq, this`processing
      ensures dlq == LPushAll(old(dlq), Malformed(items))
      ensures processing == RemoveEach(old(processing), Malformed(items))
    {
      hide Malformed, LPushAll, RemoveEach;
      dlq := LPushAll(dlq, Malformed(items));
      Acknowledge(Malformed(items));
    }

    /**
     A whole pass.  If the transaction commits, the claimed items are gone from
     the two lists, one occurrence each, and the malformed ones are in the
     dead-letter list; if it fails, the lists together hold what they held.
     */
    method ProcessBatch(commits: bool) returns (items: seq<Payload>, clicks: seq<Click>)
      modifies this
      ensures items == ClaimedBy(old(queue), old(processing)) && clicks == Clicks(items)
      ensures InLists(queue, processing) ==
        InLists(old(queue), old(processing)) - (if clicks == [] || commits then multiset(items) else multiset{})
      ensures dlq == if clicks == [] || commits then LPushAll(old(dlq), Malformed(items)) else old(dlq)
    {
      hide Malformed, LPushAll, RemoveEach, Clicks, GoodOnly, Reversed, InLists, LeftBehind, TakenFrom;
      ghost var q0, p0 := queue, processing;
      RecoverBatch();
      items := ClaimBatch();
      clicks := Clicks(items);
      ghost var q2, p2 := queue, processing;
      ClaimMovesOnly(q0, p0);
      if clicks != [] && !commits {
        return;
      }
      Acknowledge(GoodOnly(items));
      Quarantine(items);
      AcknowledgeTakesAll(q2, p2, items);
    }
  }

  ghost function InLists(queue: seq<Payload>, processing: seq<Payload>): multiset<Payload> {
    multiset(queue) + multiset(processing)
  }

  function Recovered(queue: seq<Payload>, processing: seq<Payload>): seq<Payload> {
    TakenFrom(processing) + queue
  }

  function Kept(list: seq<Payload>, i: nat): seq<Payload>
    requires i <= |list|
  {
    list[..|list| - i]
  }

  function Took(list: seq<Payload>, i: nat): seq<Payload>
    requires i <= |list|
  {
    list[|list| - i..]
  }

  function LeftBehind(list: seq<Payload>): seq<Payload> {
    Kept(list, Min(BATCH_SIZE, |list|))
  }

  function TakenFrom(list: seq<Payload>): seq<Payload> {
    Took(list, Min(BATCH_SIZE, |list|))
  }

  /** The items one pass handles: the oldest thousand once the abandoned ones are back in front. */
  function ClaimedBy(queue: seq<Payload>, processing: seq<Payload>): seq<Payload> {
    Reversed(TakenFrom(Recovered(queue, processing)))
  }

  lemma ClaimMovesOnly(queue: seq<Payload>, processing: seq<Payload>)
    ensures var q := Recovered(queue, processing);
      var taken := TakenFrom(q);
      && InLists(LeftBehind(q), taken + LeftBehind(processing)) == InLists(queue, processing)
      && multiset(ClaimedBy(queue, processing)) <= multiset(taken + LeftBehind(processing))
  {
    var q := Recovered(queue, processing);
    var back := TakenFrom(processing);
    TakeOrLeave(processing);
    TakeOrLeave(q);
    ReversedMultiset(TakenFrom(q));
    hide TakenFrom, LeftBehind, Reversed, Min;
    var taken, kept, left := TakenFrom(q), LeftBehind(q), LeftBehind(processing);
    assert multiset(taken + left) == multiset(taken) + multiset(left);
    assert multiset(q) == multiset(back) + multiset(queue) by { assert q == back + queue; }
    Regroup(multiset(kept), multiset(taken), multiset(left), multiset(back), multiset(queue));
  }

  lemma TakeOrLeave(s: seq<Payload>)
    ensures multiset(LeftBehind(s)) + multiset(TakenFrom(s)) == multiset(s)
  {
    SplitMultiset(s, |s| - Min(BATCH_SIZE, |s|));
  }

  lemma Regroup(kept: multiset<Payload>, taken: multiset<Payload>, left: multiset<Payload>, back: multiset<Payload>, queue: multiset<Payload>)
    requires kept + taken == back + queue
    ensures kept + (taken + left) == queue + (left + back)
  {
    assert kept + (taken + left) == (kept + taken) + left;
  }

  lemma AcknowledgeTakesAll(queue: seq<Payload>, processing: seq<Payload>, items: seq<Payload>)
    requires multiset(items) <= multiset(processing)
    ensures InLists(queue, RemoveEach(RemoveEach(processing, GoodOnly(items)), Malformed(items))) ==
      InLists(queue, processing) - multiset(items)
  {
    GoodAndMalformed(items);
    RemoveEachMultiset(processing, GoodOnly(items));
    RemoveEachMultiset(RemoveEach(processing, GoodOnly(items)), Malformed(items));
  }

  /** Unless there is a backlog over the batch size, one pass handles everything both lists hold. */
  lemma SmallBacklogInOnePass(queue: seq<Payload>, processing: seq<Payload>)
    ensures multiset(ClaimedBy(queue, processing)) == InLists(queue, processing)
      <==> |queue| + |processing| <= 1000
  {
    var q := Recovered(queue, processing);
    ReversedMultiset(TakenFrom(q));
    TakenSize(processing);
    TakenSize(q);
    hide TakenFrom, Reversed;
    assert |multiset(TakenFrom(q))| == |TakenFrom(q)|;
    assert |InLists(queue, processing)| == |queue| + |processing|;
    if |queue| + |processing| <= BATCH_SIZE {
      assert multiset(processing + queue) == multiset(processing) + multiset(queue);
    }
  }

  lemma TakenSize(s: seq<Payload>)
    ensures |TakenFrom(s)| == Min(BATCH_SIZE, |s|)
    ensures |s| <= BATCH_SIZE ==> TakenFrom(s) == s
  {
  }

  lemma RecoverOne(list: seq<Payload>, queue: seq<Payload>, i: nat)
    requires i < |list|
    ensures var rest := list[..|list| - i];
      && [Last(rest)] + (list[|list| - i..] + queue) == list[|list| - i - 1..] + queue
      && Front(rest) == list[..|list| - i - 1]
  {
    assert list[|list| - i - 1..] == [list[|list| - i - 1]] + list[|list| - i..];
  }

  lemma NothingClaimed(queue: seq<Payload>, processing: seq<Payload>)
    ensures Kept(queue, 0) == queue && Took(queue, 0) + processing == processing && Reversed(Took(queue, 0)) == []
  {
  }

  lemma KeptLength(queue: seq<Payload>, i: nat)
    requires i <= |queue|
    ensures |Kept(queue, i)| == |queue| - i
  {
  }

  lemma ClaimOne(queue: seq<Payload>, processing: seq<Payload>, i: nat)
    requires i < |queue|
    ensures Kept(queue, i) != []
    ensures var claimed := Last(Kept(queue, i));
      && [claimed] + (Took(queue, i) + processing) == Took(queue, i + 1) + processing
      && Front(Kept(queue, i)) == Kept(queue, i + 1)
      && Reversed(Took(queue, i + 1)) == Reversed(Took(queue, i)) + [claimed]
  {
    var x := queue[|queue| - i - 1];
    assert Took(queue, i + 1) == [x] + Took(queue, i);
    ReversedCons(x, Took(queue, i));
    hide Reversed;
  }

  lemma SplitMultiset(s: seq<Payload>, n: nat)
    requires n <= |s|
    ensures multiset(s[..n]) + multiset(s[n..]) == multiset(s)
  {
    assert s == s[..n] + s[n..];
  }
}
