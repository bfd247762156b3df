// Every step of the message-passing machine keeps its invariant.
module IpcInvariant {
  import opened Constants
  import opened IpcSpec

  // ------------------------------------------------------- chains of senders

  // Two chains from the same process run together as far as both go.
  lemma {:induction false} PathsAgree(s: Sys, p: seq<int>, q: seq<int>, k: nat)
    requires IsPath(s, p) && IsPath(s, q) && p[0] == q[0]
    requires k < |p| && k < |q|
    ensures p[k] == q[k]
  {
    if k > 0 {
      PathsAgree(s, p, q, k - 1);
      assert WaitsFor(s, p[k - 1], p[k]) && WaitsFor(s, q[k - 1], q[k]);
    }
  }

  // A path cannot go on where a chain has ended.
  lemma PathInsideChain(s: Sys, a: int, chain: seq<int>, path: seq<int>)
    requires IsChain(s, a, chain) && IsPath(s, path) && path[0] == a
    ensures path <= chain
  {
    var n := |chain| - 1;
    if |path| > |chain| {
      assert WaitsFor(s, path[n], path[n + 1]);
      PathsAgree(s, path, chain, n);
    }
    forall k | 0 <= k < |path| ensures path[k] == chain[k] {
      PathsAgree(s, path, chain, k);
    }
  }

  // The graph of blocked senders has no cycle.
  lemma NoCycle(s: Sys, path: seq<int>)
    requires Grounded(s) && IsPath(s, path) && |path| >= 2
    ensures path[0] != path[|path| - 1]
  {
    var a, k := path[0], |path| - 1;
    if path[k] == a {
      assert EndsSomewhere(s, a);
      var chain :| IsChain(s, a, chain);
      PathInsideChain(s, a, chain, path);
      var rest := chain[k..];
      assert IsChain(s, a, rest) by {
        forall i | 0 <= i < |rest| - 1 ensures WaitsFor(s, rest[i], rest[i + 1]) {
          assert WaitsFor(s, chain[k + i], chain[k + i + 1]);
        }
      }
      PathInsideChain(s, a, rest, chain);
    }
  }

  // Reaching a process that is not blocked sending means that the chain ends there.
  lemma ReachesEnd(s: Sys, d: int, p: int, chain: seq<int>)
    requires IsChain(s, d, chain) && 0 <= p < |s.mode| && !s.mode[p].Sending?
    ensures Reaches(s, d, p) <==> p in chain
    ensures p in chain ==> chain[|chain| - 1] == p
  {
    if p in chain {
      var i :| 0 <= i < |chain| && chain[i] == p;
      assert i < |chain| - 1 ==> WaitsFor(s, chain[i], chain[i + 1]);
      assert IsPath(s, chain);
    }
    if Reaches(s, d, p) {
      var path :| IsPath(s, path) && path[0] == d && path[|path| - 1] == p;
      PathInsideChain(s, d, chain, path);
      assert chain[|path| - 1] == p;
    }
  }

  // Blocking p on d, where d does not reach p, closes no circle.
  lemma BlockKeepsGrounded(s: Sys, s': Sys, p: int, d: int, m: Message)
    requires Grounded(s) && 0 <= p < |s.mode| && 0 <= d < |s.mode|
    requires !s.mode[p].Sending? && !Reaches(s, d, p)
    requires s'.mode == s.mode[p := Sending(d, m)]
    ensures Grounded(s')
  {
    assert EndsSomewhere(s, d);
    var tail :| IsChain(s, d, tail);
    ReachesEnd(s, d, p, tail);
    SameEdgesSamePath(s, s', p, tail);
    forall a | 0 <= a < |s'.mode| ensures EndsSomewhere(s', a) {
      assert EndsSomewhere(s, a);
      var chain :| IsChain(s, a, chain);
      ReachesEnd(s, a, p, chain);
      if p in chain {
        var n := |chain|;
        var longer := chain + tail;
        forall i | 0 <= i < |longer| - 1 ensures WaitsFor(s', longer[i], longer[i + 1]) {
          if i < n - 1 {
            assert WaitsFor(s, chain[i], chain[i + 1]);
          } else if i >= n {
            assert WaitsFor(s', tail[i - n], tail[i - n + 1]);
          }
        }
        assert IsChain(s', a, longer);
      } else {
        SameEdgesSamePath(s, s', p, chain);
        assert IsChain(s', a, chain);
      }
    }
  }

  lemma SameEdgesSamePath(s: Sys, s': Sys, p: int, path: seq<int>)
    requires |s'.mode| == |s.mode|
    requires forall a :: 0 <= a < |s.mode| && a != p ==> s'.mode[a] == s.mode[a]
    requires IsPath(s, path) && p !in path
    ensures IsPath(s', path)
  {
    forall i | 0 <= i < |path| - 1 ensures WaitsFor(s', path[i], path[i + 1]) {
      assert WaitsFor(s, path[i], path[i + 1]);
      assert path[i] in path;
    }
  }

  // Changing p to a mode that is not a send only cuts chains.
  lemma UnblockKeepsGrounded(s: Sys, s': Sys, p: int)
    requires Grounded(s) && 0 <= p < |s.mode| == |s'.mode|
    requires forall a :: 0 <= a < |s.mode| && a != p ==> s'.mode[a] == s.mode[a]
    requires !s'.mode[p].Sending?
    ensures Grounded(s')
  {
    forall a | 0 <= a < |s'.mode| ensures EndsSomewhere(s', a) {
      assert EndsSomewhere(s, a);
      var chain :| IsChain(s, a, chain);
      if p in chain {
        var i := IndexOf(chain, p);
        var cut := chain[..i + 1];
        forall j | 0 <= j < |cut| - 1 ensures WaitsFor(s', cut[j], cut[j + 1]) {
          assert WaitsFor(s, chain[j], chain[j + 1]);
          assert chain[..i][j] in chain[..i];
        }
        assert IsChain(s', a, cut);
      } else {
        SameEdgesSamePath(s, s', p, chain);
        assert IsChain(s', a, chain) by { assert chain[|chain| - 1] in chain; }
      }
    }
  }

  // ------------------------------------------------------------------ steps

  lemma WithoutKeepsOthers(q: seq<int>, i: nat)
    requires i < |q| && NoDuplicates(q)
    ensures NoDuplicates(Without(q, i))
    ensures forall x :: x in Without(q, i) <==> x in q && x != q[i]
  {
    var w := Without(q, i);
    forall x | x in w ensures x in q && x != q[i] {
      var j :| 0 <= j < |w| && w[j] == x;
      assert x == q[if j < i then j else j + 1];
    }
    forall x | x in q && x != q[i] ensures x in w {
      var j :| 0 <= j < |q| && q[j] == x;
      assert x == w[if j < i then j else j - 1];
    }
  }

  lemma BlockKeepsQueues(s: Sys, p: int, d: int, m: Message)
    requires Inv(s) && IsPid(p) && IsPid(d) && s.mode[p] == Ready && p != d
    requires !Accepts(s.mode[d], p)
    ensures
      var s' := s.(mode := s.mode[p := Sending(d, m)], queue := s.queue[d := s.queue[d] + [p]]);
      QueuesMatch(s') && NothingMissed(s')
  {
    var s' := s.(mode := s.mode[p := Sending(d, m)], queue := s.queue[d := s.queue[d] + [p]]);
    forall r, i | 0 <= r < NR_ALL && 0 <= i < |s'.queue[r]| ensures WaitsFor(s', s'.queue[r][i], r) {
      if i < |s.queue[r]| { assert WaitsFor(s, s.queue[r][i], r); }
    }
    forall q | 0 <= q < NR_ALL && s'.mode[q].Sending?
      ensures IsPid(s'.mode[q].to) && q in s'.queue[s'.mode[q].to]
    {
      if q == p { assert s'.queue[d][|s.queue[d]|] == p; }
    }
    forall r | 0 <= r < NR_ALL ensures NoDuplicates(s'.queue[r]) {
      forall i | 0 <= i < |s.queue[r]| ensures s.queue[r][i] != p {
        assert WaitsFor(s, s.queue[r][i], r);
      }
    }
  }

  // A send by a ready process keeps the invariant whatever happens to it.
  lemma SendKeepsInv(s: Sys, p: int, d: int, m: Message)
    requires Inv(s) && IsPid(p) && IsPid(d) && s.mode[p] == Ready
    ensures Inv(Send(s, p, d, m).sys)
  {
    var s' := Send(s, p, d, m).sys;
    if p != d && !Reaches(s, d, p) {
      if Accepts(s.mode[d], p) {
        UnblockKeepsGrounded(s, s', d);
        SameEdgesKeepQueues(s, s', d);
      } else {
        BlockKeepsGrounded(s, s', p, d, m);
        BlockKeepsQueues(s, p, d, m);
      }
    }
  }

  // A change of one process between two modes that are not sends.
  lemma SameEdgesKeepQueues(s: Sys, s': Sys, r: int)
    requires WellShaped(s) && WellShaped(s') && QueuesMatch(s) && IsPid(r)
    requires s'.queue == s.queue
    requires forall a :: 0 <= a < NR_ALL && a != r ==> s'.mode[a] == s.mode[a]
    requires !s.mode[r].Sending? && !s'.mode[r].Sending?
    ensures QueuesMatch(s')
  {
    forall q, i | 0 <= q < NR_ALL && 0 <= i < |s'.queue[q]| ensures WaitsFor(s', s'.queue[q][i], q) {
      assert WaitsFor(s, s.queue[q][i], q);
    }
  }

  lemma TakeKeepsInv(s: Sys, r: int, i: nat, any: bool)
    requires Inv(s) && IsPid(r) && s.mode[r] == Ready && i < |s.queue[r]|
    ensures WaitsFor(s, s.queue[r][i], r)
    ensures Inv(Take(s, r, i, any).sys)
  {
    assert WaitsFor(s, s.queue[r][i], r);
    var s' := Take(s, r, i, any).sys;
    var p := s.queue[r][i];
    UnblockKeepsGrounded(s, s', p);
    WithoutKeepsOthers(s.queue[r], i);
    forall q, j | 0 <= q < NR_ALL && 0 <= j < |s'.queue[q]| ensures WaitsFor(s', s'.queue[q][j], q) {
      var x := s'.queue[q][j];
      assert x in s'.queue[q];
      assert x in s.queue[q];
      var j' :| 0 <= j' < |s.queue[q]| && s.queue[q][j'] == x;
      assert WaitsFor(s, s.queue[q][j'], q);
    }
    forall q | 0 <= q < NR_ALL && s'.mode[q].Receiving? ensures s'.mode[q].from !in s'.queue[q] {
      assert s.mode[q].from !in s.queue[q];
    }
  }

  lemma ReceiveKeepsInv(s: Sys, r: int, src: int)
    requires Inv(s) && IsPid(r) && s.mode[r] == Ready
    requires IsPid(src) || src == ANY || src == INTERRUPT
    ensures Inv(Receive(s, r, src).sys)
  {
    var s' := Receive(s, r, src).sys;
    if r == src {
    } else if s.hasInt[r] && (src == ANY || src == INTERRUPT) {
      UnblockKeepsGrounded(s, s', r);
      SameEdgesKeepQueues(s, s', r);
    } else if src == ANY && s.queue[r] != [] {
      TakeKeepsInv(s, r, 0, true);
    } else if IsPid(src) && src in s.queue[r] {
      TakeKeepsInv(s, r, IndexOf(s.queue[r], src), false);
    } else {
      UnblockKeepsGrounded(s, s', r);
      SameEdgesKeepQueues(s, s', r);
      if !IsPid(src) {
        forall i | 0 <= i < |s.queue[r]| ensures s.queue[r][i] != src {
          assert WaitsFor(s, s.queue[r][i], r);
        }
      }
    }
  }

  lemma InterruptKeepsInv(s: Sys, r: int)
    requires Inv(s) && IsPid(r)
    ensures Inv(Interrupt(s, r).sys)
  {
    var s' := Interrupt(s, r).sys;
    if s.mode[r] == Receiving(INTERRUPT) || s.mode[r] == Receiving(ANY) {
      UnblockKeepsGrounded(s, s', r);
      SameEdgesKeepQueues(s, s', r);
    } else {
      forall a | 0 <= a < |s'.mode| ensures EndsSomewhere(s', a) {
        assert EndsSomewhere(s, a);
        var chain :| IsChain(s, a, chain);
        SamePath(s, s', chain);
        assert IsChain(s', a, chain);
      }
      SameModesKeepQueues(s, s');
    }
  }

  lemma SamePath(s: Sys, s': Sys, path: seq<int>)
    requires s'.mode == s.mode && IsPath(s, path)
    ensures IsPath(s', path)
  {
    forall i | 0 <= i < |path| - 1 ensures WaitsFor(s', path[i], path[i + 1]) {
      assert WaitsFor(s, path[i], path[i + 1]);
    }
  }

  lemma SameModesKeepQueues(s: Sys, s': Sys)
    requires WellShaped(s) && WellShaped(s') && QueuesMatch(s)
    requires s'.mode == s.mode && s'.queue == s.queue
    ensures QueuesMatch(s')
  {
    forall q, i | 0 <= q < NR_ALL && 0 <= i < |s'.queue[q]| ensures WaitsFor(s', s'.queue[q][i], q) {
      assert WaitsFor(s, s.queue[q][i], q);
    }
  }
}
