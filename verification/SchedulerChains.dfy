/**
 Blocked-on chains.  put_message compares the sender only with the end of the
 recipient's chain; that this keeps the whole graph free of cycles rests on
 the sender being unblocked, so that it can only be the end of a chain.
 */
module SchedulerChains {
  import opened Options
  import opened SchedulerState

  /** Following blocking_thread from any thread stops. */
  ghost predicate AllChains(threads: map<Tid, Thread>) {
    forall t {:trigger HasChain(threads, t)} :: t in threads ==> HasChain(threads, t)
  }

  /** No thread waits for itself, however indirectly. */
  ghost predicate Acyclic(threads: map<Tid, Thread>) {
    forall p :: IsPath(threads, p) && |p| >= 2 ==> p[0] != p[|p| - 1]
  }

  /** Both maps have the same threads, and the same links except perhaps at x. */
  ghost predicate LinksExcept(threads: map<Tid, Thread>, threads': map<Tid, Thread>, x: Tid) {
    && threads.Keys == threads'.Keys
    && forall t :: t in threads && t != x ==> threads'[t].blockingThread == threads[t].blockingThread
  }

  ghost predicate SameLinks(threads: map<Tid, Thread>, threads': map<Tid, Thread>) {
    && threads.Keys == threads'.Keys
    && forall t :: t in threads ==> threads'[t].blockingThread == threads[t].blockingThread
  }

  /** Two link-following paths from one thread agree as far as both go. */
  lemma {:induction false} PathsAgree(threads: map<Tid, Thread>, p: seq<Tid>, q: seq<Tid>, i: nat)
    requires IsPath(threads, p) && IsPath(threads, q) && p[0] == q[0]
    requires i < |p| && i < |q|
    ensures p[i] == q[i]
  {
    if i > 0 {
      PathsAgree(threads, p, q, i - 1);
      assert LinkAt(threads, p, i - 1) && LinkAt(threads, q, i - 1);
    }
  }

  /** A path from where a chain starts cannot run past the end of the chain. */
  lemma NotLonger(threads: map<Tid, Thread>, c: seq<Tid>, p: seq<Tid>)
    requires IsChain(threads, c) && IsPath(threads, p) && c[0] == p[0]
    ensures |p| <= |c|
  {
    if |p| > |c| {
      PathsAgree(threads, c, p, |c| - 1);
      var linked := LinkAt(threads, p, |c| - 1);
    }
  }

  /** A thread has only one chain, so find_blocking_thread has only one possible answer. */
  lemma EndIsUnique(threads: map<Tid, Thread>, p: seq<Tid>, q: seq<Tid>)
    requires IsChain(threads, p) && IsChain(threads, q) && p[0] == q[0]
    ensures p == q
  {
    NotLonger(threads, p, q);
    NotLonger(threads, q, p);
    forall i | 0 <= i < |p| ensures p[i] == q[i] {
      PathsAgree(threads, p, q, i);
    }
  }

  lemma EndsAtUnique(threads: map<Tid, Thread>, t: Tid, e: Tid, e': Tid)
    requires EndsAt(threads, t, e) && EndsAt(threads, t, e')
    ensures e == e'
  {
    var p: seq<Tid> :| ChainFromTo(threads, p, t, e);
    var q: seq<Tid> :| ChainFromTo(threads, q, t, e');
    EndIsUnique(threads, p, q);
  }

  lemma Suffix(threads: map<Tid, Thread>, c: seq<Tid>, n: nat)
    requires IsChain(threads, c) && n < |c|
    ensures IsChain(threads, c[n..])
  {
    forall i: nat | i + 1 < |c[n..]| ensures LinkAt(threads, c[n..], i) {
      assert LinkAt(threads, c, n + i);
    }
  }

  lemma ChainsRuleOutCycles(threads: map<Tid, Thread>)
    requires AllChains(threads)
    ensures Acyclic(threads)
  {
    forall p | IsPath(threads, p) && |p| >= 2 ensures p[0] != p[|p| - 1] {
      assert LinkAt(threads, p, 0);
      assert HasChain(threads, p[0]);
      var e: Tid :| EndsAt(threads, p[0], e);
      var c: seq<Tid> :| ChainFromTo(threads, c, p[0], e);
      var n := |p| - 1;
      NotLonger(threads, c, p);
      PathsAgree(threads, c, p, n);
      Suffix(threads, c, n);
      if p[0] == p[n] {
        EndIsUnique(threads, c, c[n..]);
      }
    }
  }

  /** The end of a chain is not blocked; only an unblocked thread is its own end. */
  lemma EndFacts(threads: map<Tid, Thread>, t: Tid, e: Tid)
    requires EndsAt(threads, t, e)
    ensures t in threads && e in threads && threads[e].blockingThread == None
    ensures t == e <==> threads[t].blockingThread == None
  {
    var p: seq<Tid> :| ChainFromTo(threads, p, t, e);
    Suffix(threads, p, |p| - 1);
    if t == e {
      EndIsUnique(threads, p, p[|p| - 1..]);
    }
    if |p| > 1 {
      assert LinkAt(threads, p, 0);
    }
  }

  lemma SelfEnd(threads: map<Tid, Thread>, t: Tid)
    requires t in threads && threads[t].blockingThread == None
    ensures EndsAt(threads, t, t)
  {
    assert ChainFromTo(threads, [t], t, t);
  }

  /** A chain survives any change that leaves the links of its members alone. */
  lemma ChainFrame(threads: map<Tid, Thread>, threads': map<Tid, Thread>, p: seq<Tid>)
    requires IsChain(threads, p)
    requires forall t :: t in p && t in threads ==> t in threads' && threads'[t].blockingThread == threads[t].blockingThread
    ensures IsChain(threads', p)
  {
    assert p[|p| - 1] in p;
    forall i: nat | i + 1 < |p| ensures LinkAt(threads', p, i) {
      assert LinkAt(threads, p, i) && p[i] in p;
    }
  }

  /** Steps that leave every link alone leave every chain alone. */
  lemma SameLinksSameEnds(threads: map<Tid, Thread>, threads': map<Tid, Thread>, t: Tid, e: Tid)
    requires SameLinks(threads, threads')
    requires EndsAt(threads, t, e)
    ensures EndsAt(threads', t, e)
  {
    var p: seq<Tid> :| ChainFromTo(threads, p, t, e);
    ChainFrame(threads, threads', p);
    assert ChainFromTo(threads', p, t, e);
  }

  lemma SameLinksKeepChains(threads: map<Tid, Thread>, threads': map<Tid, Thread>)
    requires AllChains(threads) && SameLinks(threads, threads')
    ensures AllChains(threads')
  {
    forall t | t in threads' ensures HasChain(threads', t) {
      assert HasChain(threads, t);
      var e: Tid :| EndsAt(threads, t, e);
      SameLinksSameEnds(threads, threads', t, e);
    }
  }

  lemma FirstOccurrence(p: seq<Tid>, w: Tid) returns (i: nat)
    requires w in p
    ensures i < |p| && p[i] == w && w !in p[..i]
  {
    if p[0] == w {
      i := 0;
    } else {
      var j := FirstOccurrence(p[1..], w);
      i := j + 1;
      assert p[..i] == [p[0]] + p[1..][..j];
    }
  }

  lemma CutChain(threads: map<Tid, Thread>, threads': map<Tid, Thread>, w: Tid, t: Tid, e: Tid)
    requires LinksExcept(threads, threads', w)
    requires w in threads && threads'[w].blockingThread == None
    requires EndsAt(threads, t, e)
    ensures EndsAt(threads', t, e) || EndsAt(threads', t, w)
  {
    var p: seq<Tid> :| ChainFromTo(threads, p, t, e);
    if w in p {
      var n := FirstOccurrence(p, w);
      var q := p[..n + 1];
      forall i: nat | i + 1 < |q| ensures LinkAt(threads', q, i) {
        assert LinkAt(threads, p, i) && p[i] in p[..n];
      }
      assert ChainFromTo(threads', q, t, w);
    } else {
      ChainFrame(threads, threads', p);
      assert ChainFromTo(threads', p, t, e);
    }
  }

  /** Waking w cuts every chain through w at w. */
  lemma CutLink(threads: map<Tid, Thread>, threads': map<Tid, Thread>, w: Tid)
    requires AllChains(threads) && LinksExcept(threads, threads', w)
    requires w in threads && threads'[w].blockingThread == None
    ensures AllChains(threads')
  {
    forall t | t in threads' ensures HasChain(threads', t) {
      assert HasChain(threads, t);
      var e: Tid :| EndsAt(threads, t, e);
      CutChain(threads, threads', w, t, e);
    }
  }

  /** An unblocked thread can only be the end of a chain. */
  lemma UnblockedIsEnd(threads: map<Tid, Thread>, p: seq<Tid>, c: Tid)
    requires IsChain(threads, p) && c in threads && threads[c].blockingThread == None
    ensures c !in p[..|p| - 1]
  {
    forall i: nat | i < |p| - 1 ensures p[i] != c {
      assert LinkAt(threads, p, i);
    }
  }

  lemma ExtendChain(threads: map<Tid, Thread>, threads': map<Tid, Thread>, c: Tid, t: Tid, q: seq<Tid>)
    requires LinksExcept(threads, threads', c)
    requires EndsAt(threads, t, c)
    requires IsChain(threads', q) && threads'[c].blockingThread == Some(q[0])
    ensures EndsAt(threads', t, q[|q| - 1])
  {
    var p: seq<Tid> :| ChainFromTo(threads, p, t, c);
    UnblockedIsEnd(threads, p, c);
    var pq := p + q;
    forall i: nat | i + 1 < |pq| ensures LinkAt(threads', pq, i) {
      if i < |p| - 1 {
        assert LinkAt(threads, p, i) && p[i] in p[..|p| - 1];
      } else if i >= |p| {
        assert LinkAt(threads', q, i - |p|);
      }
    }
    assert ChainFromTo(threads', pq, t, q[|q| - 1]);
  }

  lemma KeepChain(threads: map<Tid, Thread>, threads': map<Tid, Thread>, c: Tid, t: Tid, e: Tid)
    requires LinksExcept(threads, threads', c)
    requires c in threads && threads[c].blockingThread == None && e != c
    requires EndsAt(threads, t, e)
    ensures EndsAt(threads', t, e)
  {
    var p: seq<Tid> :| ChainFromTo(threads, p, t, e);
    UnblockedIsEnd(threads, p, c);
    assert p == p[..|p| - 1] + [e];
    ChainFrame(threads, threads', p);
    assert ChainFromTo(threads', p, t, e);
  }

  /**
   The deadlock check is enough: blocking the running thread c, which is
   unblocked, on r cannot close a cycle unless the chain of r ends at c.
   */
  lemma AddLink(threads: map<Tid, Thread>, threads': map<Tid, Thread>, c: Tid, r: Tid)
    requires AllChains(threads) && LinksExcept(threads, threads', c)
    requires c in threads && threads[c].blockingThread == None
    requires r in threads && !EndsAt(threads, r, c)
    requires threads'[c].blockingThread == Some(r)
    ensures AllChains(threads')
  {
    assert HasChain(threads, r);
    var er: Tid :| EndsAt(threads, r, er);
    KeepChain(threads, threads', c, r, er);
    var q: seq<Tid> :| ChainFromTo(threads', q, r, er);
    forall t | t in threads' ensures HasChain(threads', t) {
      assert HasChain(threads, t);
      var e: Tid :| EndsAt(threads, t, e);
      if e == c {
        ExtendChain(threads, threads', c, t, q);
      } else {
        KeepChain(threads, threads', c, t, e);
      }
    }
  }

  /** A thread that nobody points at yet joins as a chain of its own. */
  lemma AddThread(threads: map<Tid, Thread>, t: Tid)
    requires AllChains(threads) && t !in threads
    ensures AllChains(threads[t := NewThread()])
  {
    var threads' := threads[t := NewThread()];
    forall u | u in threads' ensures HasChain(threads', u) {
      if u == t {
        SelfEnd(threads', t);
      } else {
        assert HasChain(threads, u);
        var e: Tid :| EndsAt(threads, u, e);
        var p: seq<Tid> :| ChainFromTo(threads, p, u, e);
        ChainFrame(threads, threads', p);
        assert ChainFromTo(threads', p, u, e);
        assert EndsAt(threads', u, e);
      }
    }
  }
}
