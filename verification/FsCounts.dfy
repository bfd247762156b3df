// Reference counts: fd_cnt of a descriptor and i_cnt of a cached inode against
// the open-file tables of all processes.
module FsCounts {
  import opened Constants

  // The null pointer of filp entries and of fd_inode.
  const NIL := -1
  const NR_FILES := 64
  const NR_FILE_DESC := 64
  const NR_INODES := 64

  datatype OpenFlag = O_CREATE | O_RW | O_TRUNC

  // fd_inode is an index of the inode table, or NIL for a free descriptor.
  datatype Desc = Desc(inode: int, cnt: int, pos: int, flags: set<OpenFlag>)

  type Filp = seq<seq<int>>

  predicate Shape(filp: Filp) {
    |filp| == NR_ALL && forall p :: 0 <= p < NR_ALL ==> |filp[p]| == NR_FILES
  }

  // The tables with entry i of process p set to x.
  function SetEntry(filp: Filp, p: nat, i: nat, x: int): Filp
    requires p < |filp| && i < |filp[p]|
  {
    filp[p := filp[p][i := x]]
  }

  // How often each descriptor occurs in the filp tables.
  ghost function Refs(filp: Filp): multiset<int> {
    if filp == [] then multiset{} else Refs(filp[..|filp| - 1]) + multiset(filp[|filp| - 1])
  }

  // How many of the references refs lead to inode k.
  ghost function Reaching(desc: seq<Desc>, refs: multiset<int>, k: int): nat {
    if desc == [] then 0
    else
      var n := |desc| - 1;
      Reaching(desc[..n], refs, k) + (if desc[n].inode == k then refs[n] else 0)
  }

  // -------------------------------------------------------------- invariant

  predicate IsLive(desc: seq<Desc>, d: int) {
    0 <= d < |desc| && desc[d].inode != NIL
  }

  predicate EntriesLive(filp: Filp, desc: seq<Desc>)
    requires Shape(filp)
  {
    forall p, i :: 0 <= p < NR_ALL && 0 <= i < NR_FILES ==> filp[p][i] == NIL || IsLive(desc, filp[p][i])
  }

  ghost predicate DescsCounted(filp: Filp, desc: seq<Desc>) {
    forall d :: 0 <= d < |desc| && desc[d].inode != NIL ==>
      0 <= desc[d].inode < NR_INODES && desc[d].cnt == Refs(filp)[d] && desc[d].cnt > 0
  }

  // extra[k] counts the references to inode k that are not held by an open
  // file: that of the file system to the root directory, and those that
  // unlink forgets when it fails.
  ghost predicate InodesCounted(filp: Filp, desc: seq<Desc>, cnt: seq<int>, extra: seq<nat>)
    requires |cnt| == |extra| == NR_INODES
  {
    forall k :: 0 <= k < NR_INODES ==> cnt[k] == Reaching(desc, Refs(filp), k) + extra[k]
  }

  ghost predicate CountsOk(filp: Filp, desc: seq<Desc>, cnt: seq<int>, extra: seq<nat>) {
    && Shape(filp) && |desc| == NR_FILE_DESC && |cnt| == |extra| == NR_INODES
    && EntriesLive(filp, desc) && DescsCounted(filp, desc) && InodesCounted(filp, desc, cnt, extra)
  }

  // ---------------------------------------------------- references, counted

  lemma {:induction false} RefsUpdate(filp: Filp, p: nat, row: seq<int>)
    requires p < |filp|
    ensures Refs(filp[p := row]) + multiset(filp[p]) == Refs(filp) + multiset(row)
    decreases |filp|
  {
    var n := |filp| - 1;
    var front, filp' := filp[..n], filp[p := row];
    if p == n {
      assert filp'[..n] == front && filp'[n] == row;
    } else {
      assert filp'[..n] == front[p := row] && filp'[n] == filp[n] && front[p] == filp[p];
      RefsUpdate(front, p, row);
      calc {
        Refs(filp') + multiset(filp[p]);
        (Refs(front[p := row]) + multiset(front[p])) + multiset(filp[n]);
        (Refs(front) + multiset(row)) + multiset(filp[n]);
        Refs(filp) + multiset(row);
      }
    }
  }

  // Setting an entry takes one reference from the old and gives one to the new.
  lemma RefsSet(filp: Filp, p: nat, i: nat, x: int, y: int)
    requires p < |filp| && i < |filp[p]| && filp[p][i] != x
    ensures Refs(SetEntry(filp, p, i, x))[y] + (if y == filp[p][i] then 1 else 0)
         == Refs(filp)[y] + (if y == x then 1 else 0)
  {
    var row, row' := filp[p], filp[p][i := x];
    RefsUpdate(filp, p, row');
    assert multiset(row') == multiset(row) - multiset{row[i]} + multiset{x};
    assert row[i] in multiset(row);
    assert (Refs(SetEntry(filp, p, i, x)) + multiset(row))[y] == (Refs(filp) + multiset(row'))[y];
  }

  predicate Points(filp: Filp, d: int) {
    exists p, i :: 0 <= p < |filp| && 0 <= i < |filp[p]| && filp[p][i] == d
  }

  // A descriptor is counted exactly when some entry points at it.
  lemma {:induction false} RefsMember(filp: Filp, d: int)
    ensures Refs(filp)[d] > 0 <==> Points(filp, d)
    decreases |filp|
  {
    if filp != [] {
      var n := |filp| - 1;
      var front := filp[..n];
      RefsMember(front, d);
      assert Refs(filp)[d] == Refs(front)[d] + multiset(filp[n])[d];
      assert d in multiset(filp[n]) <==> d in filp[n];
      assert Points(filp, d) <==> Points(front, d) || d in filp[n] by {
        if Points(front, d) {
          var p, i :| 0 <= p < |front| && 0 <= i < |front[p]| && front[p][i] == d;
          assert filp[p][i] == d;
        }
        if Points(filp, d) {
          var p, i :| 0 <= p < |filp| && 0 <= i < |filp[p]| && filp[p][i] == d;
          if p < n { assert front[p][i] == d; }
        }
      }
    }
  }

  // Only descriptor d, or its references, differ.
  lemma {:induction false} ReachingChange(desc: seq<Desc>, desc': seq<Desc>, refs: multiset<int>,
                                          refs': multiset<int>, k: int, d: nat)
    requires |desc| == |desc'| && d < |desc|
    requires forall i :: 0 <= i < |desc| && i != d ==> desc'[i].inode == desc[i].inode && refs'[i] == refs[i]
    ensures Reaching(desc', refs', k) - (if desc'[d].inode == k then refs'[d] else 0)
         == Reaching(desc, refs, k) - (if desc[d].inode == k then refs[d] else 0)
    decreases |desc|
  {
    var n := |desc| - 1;
    if d == n {
      ReachingSame(desc[..n], desc'[..n], refs, refs', k);
    } else {
      ReachingChange(desc[..n], desc'[..n], refs, refs', k, d);
    }
  }

  lemma {:induction false} ReachingSame(desc: seq<Desc>, desc': seq<Desc>, refs: multiset<int>, refs': multiset<int>,
                                        k: int)
    requires |desc| == |desc'|
    requires forall i :: 0 <= i < |desc| ==> desc'[i].inode == desc[i].inode && refs'[i] == refs[i]
    ensures Reaching(desc', refs', k) == Reaching(desc, refs, k)
    decreases |desc|
  {
    if desc != [] {
      var n := |desc| - 1;
      ReachingSame(desc[..n], desc'[..n], refs, refs', k);
    }
  }

  lemma {:induction false} ReachingAtLeast(desc: seq<Desc>, refs: multiset<int>, d: nat)
    requires d < |desc|
    ensures Reaching(desc, refs, desc[d].inode) >= refs[d]
    decreases |desc|
  {
    var n := |desc| - 1;
    if d < n {
      ReachingAtLeast(desc[..n], refs, d);
    }
  }

  lemma {:induction false} ReachingNone(desc: seq<Desc>, refs: multiset<int>, k: int)
    requires forall d :: 0 <= d < |desc| ==> desc[d].inode != k
    ensures Reaching(desc, refs, k) == 0
    decreases |desc|
  {
    if desc != [] { ReachingNone(desc[..|desc| - 1], refs, k); }
  }

  // A free descriptor has no references, and an inode that a descriptor leads
  // to has a positive count.
  lemma CountsFacts(filp: Filp, desc: seq<Desc>, cnt: seq<int>, extra: seq<nat>, d: nat)
    requires CountsOk(filp, desc, cnt, extra) && d < NR_FILE_DESC
    ensures desc[d].inode == NIL ==> Refs(filp)[d] == 0
    ensures desc[d].inode != NIL ==> 0 <= desc[d].inode < NR_INODES && cnt[desc[d].inode] > extra[desc[d].inode]
  {
    if desc[d].inode == NIL {
      RefsMember(filp, d);
      assert !IsLive(desc, d) && !Points(filp, d);
    } else {
      ReachingAtLeast(desc, Refs(filp), d);
    }
  }

  // ------------------------------------------------ taking a reference

  // Descriptor d with one reference more, to inode k.
  predicate Taken(desc: seq<Desc>, desc': seq<Desc>, d: nat, k: nat) {
    && d < |desc| == |desc'| && desc' == desc[d := desc'[d]]
    && (desc[d].inode == NIL || desc[d].inode == k)
    && desc'[d].inode == k && desc'[d].cnt == (if desc[d].inode == NIL then 0 else desc[d].cnt) + 1
  }

  lemma TakeKeepsDescs(filp: Filp, desc: seq<Desc>, desc': seq<Desc>, p: nat, i: nat, d: nat, k: nat)
    requires Shape(filp) && DescsCounted(filp, desc) && p < NR_ALL && i < NR_FILES && filp[p][i] == NIL
    requires Taken(desc, desc', d, k) && k < NR_INODES && (desc[d].inode == NIL ==> Refs(filp)[d] == 0)
    ensures DescsCounted(SetEntry(filp, p, i, d), desc')
  {
    forall e | 0 <= e < |desc'| && desc'[e].inode != NIL
      ensures 0 <= desc'[e].inode < NR_INODES && desc'[e].cnt == Refs(SetEntry(filp, p, i, d))[e] && desc'[e].cnt > 0
    {
      RefsSet(filp, p, i, d, e);
    }
  }

  lemma TakeKeepsInodes(filp: Filp, desc: seq<Desc>, desc': seq<Desc>, cnt: seq<int>, extra: seq<nat>, p: nat,
                        i: nat, d: nat, k: nat)
    requires |cnt| == |extra| == NR_INODES && InodesCounted(filp, desc, cnt, extra)
    requires Shape(filp) && p < NR_ALL && i < NR_FILES && filp[p][i] == NIL
    requires Taken(desc, desc', d, k) && k < NR_INODES && (desc[d].inode == NIL ==> Refs(filp)[d] == 0)
    ensures InodesCounted(SetEntry(filp, p, i, d), desc', cnt[k := cnt[k] + 1], extra)
  {
    var refs, refs' := Refs(filp), Refs(SetEntry(filp, p, i, d));
    forall e | 0 <= e < |desc| ensures refs'[e] == refs[e] + if e == d then 1 else 0 {
      RefsSet(filp, p, i, d, e);
    }
    forall j | 0 <= j < NR_INODES ensures cnt[k := cnt[k] + 1][j] == Reaching(desc', refs', j) + extra[j] {
      ReachingChange(desc, desc', refs, refs', j, d);
    }
  }

  // A process gets a reference to descriptor d, which leads to inode k
  // already, or is free and is pointed at k now.
  lemma TakeKeepsCounts(filp: Filp, desc: seq<Desc>, desc': seq<Desc>, cnt: seq<int>, extra: seq<nat>, p: nat,
                        i: nat, d: nat, k: nat)
    requires CountsOk(filp, desc, cnt, extra) && p < NR_ALL && i < NR_FILES && filp[p][i] == NIL
    requires Taken(desc, desc', d, k) && k < NR_INODES
    ensures CountsOk(SetEntry(filp, p, i, d), desc', cnt[k := cnt[k] + 1], extra)
  {
    CountsFacts(filp, desc, cnt, extra, d);
    TakeKeepsDescs(filp, desc, desc', p, i, d, k);
    TakeKeepsInodes(filp, desc, desc', cnt, extra, p, i, d, k);
  }

  // ----------------------------------------------- dropping a reference

  // Descriptor d with one reference less; the last one frees it.
  predicate Dropped(desc: seq<Desc>, desc': seq<Desc>, d: nat) {
    && d < |desc| == |desc'| && desc' == desc[d := desc'[d]]
    && (if desc[d].cnt == 1 then desc'[d].inode == NIL
        else desc'[d].inode == desc[d].inode && desc'[d].cnt == desc[d].cnt - 1)
  }

  lemma DropKeepsEntries(filp: Filp, desc: seq<Desc>, desc': seq<Desc>, p: nat, i: nat)
    requires Shape(filp) && EntriesLive(filp, desc) && p < NR_ALL && i < NR_FILES && filp[p][i] >= 0
    requires Dropped(desc, desc', filp[p][i])
    requires desc[filp[p][i]].cnt == Refs(filp)[filp[p][i]]
    ensures EntriesLive(SetEntry(filp, p, i, NIL), desc')
  {
    var d, filp' := filp[p][i], SetEntry(filp, p, i, NIL);
    RefsSet(filp, p, i, NIL, d);
    RefsMember(filp', d);
    forall q, j | 0 <= q < NR_ALL && 0 <= j < NR_FILES ensures filp'[q][j] == NIL || IsLive(desc', filp'[q][j]) {
      assert filp'[q][j] == filp[q][j] || filp'[q][j] == NIL;
      if filp'[q][j] == d { assert Points(filp', d); }
    }
  }

  lemma DropKeepsDescs(filp: Filp, desc: seq<Desc>, desc': seq<Desc>, p: nat, i: nat)
    requires Shape(filp) && DescsCounted(filp, desc) && p < NR_ALL && i < NR_FILES && filp[p][i] >= 0
    requires Dropped(desc, desc', filp[p][i]) && IsLive(desc, filp[p][i])
    ensures DescsCounted(SetEntry(filp, p, i, NIL), desc')
  {
    forall e | 0 <= e < |desc'| && desc'[e].inode != NIL
      ensures 0 <= desc'[e].inode < NR_INODES && desc'[e].cnt == Refs(SetEntry(filp, p, i, NIL))[e] && desc'[e].cnt > 0
    {
      RefsSet(filp, p, i, NIL, e);
    }
  }

  lemma DropKeepsInodes(filp: Filp, desc: seq<Desc>, desc': seq<Desc>, cnt: seq<int>, extra: seq<nat>, p: nat, i: nat)
    requires |cnt| == |extra| == NR_INODES && InodesCounted(filp, desc, cnt, extra)
    requires Shape(filp) && DescsCounted(filp, desc) && p < NR_ALL && i < NR_FILES && filp[p][i] >= 0
    requires Dropped(desc, desc', filp[p][i]) && IsLive(desc, filp[p][i])
    ensures
      var k := desc[filp[p][i]].inode;
      0 <= k < NR_INODES && InodesCounted(SetEntry(filp, p, i, NIL), desc', cnt[k := cnt[k] - 1], extra)
  {
    var d := filp[p][i];
    var k := desc[d].inode;
    var refs, refs' := Refs(filp), Refs(SetEntry(filp, p, i, NIL));
    forall e | 0 <= e < |desc| ensures refs'[e] + (if e == d then 1 else 0) == refs[e] {
      RefsSet(filp, p, i, NIL, e);
    }
    forall j | 0 <= j < NR_INODES ensures cnt[k := cnt[k] - 1][j] == Reaching(desc', refs', j) + extra[j] {
      ReachingChange(desc, desc', refs, refs', j, d);
    }
  }

  // A process drops its entry i.
  lemma DropKeepsCounts(filp: Filp, desc: seq<Desc>, desc': seq<Desc>, cnt: seq<int>, extra: seq<nat>, p: nat, i: nat)
    requires CountsOk(filp, desc, cnt, extra) && p < NR_ALL && i < NR_FILES && filp[p][i] != NIL
    requires filp[p][i] >= 0 && Dropped(desc, desc', filp[p][i])
    ensures
      var k := desc[filp[p][i]].inode;
      0 <= k < NR_INODES && CountsOk(SetEntry(filp, p, i, NIL), desc', cnt[k := cnt[k] - 1], extra)
  {
    assert IsLive(desc, filp[p][i]);
    DropKeepsEntries(filp, desc, desc', p, i);
    DropKeepsDescs(filp, desc, desc', p, i);
    DropKeepsInodes(filp, desc, desc', cnt, extra, p, i);
  }

  // A reference from outside the open-file tables comes or goes.
  lemma ExtraKeepsCounts(filp: Filp, desc: seq<Desc>, cnt: seq<int>, extra: seq<nat>, k: nat, n: nat)
    requires CountsOk(filp, desc, cnt, extra) && k < NR_INODES
    ensures CountsOk(filp, desc, cnt[k := cnt[k] - extra[k] + n], extra[k := n])
  {
  }

  // A reference from outside becomes an entry of a process.
  lemma MoveKeepsCounts(filp: Filp, desc: seq<Desc>, desc': seq<Desc>, cnt: seq<int>, extra: seq<nat>, p: nat,
                        i: nat, d: nat, k: nat)
    requires CountsOk(filp, desc, cnt, extra) && p < NR_ALL && i < NR_FILES && filp[p][i] == NIL
    requires Taken(desc, desc', d, k) && k < NR_INODES && extra[k] > 0
    ensures CountsOk(SetEntry(filp, p, i, d), desc', cnt, extra[k := extra[k] - 1])
  {
    var less := cnt[k := cnt[k] - extra[k] + (extra[k] - 1)];
    ExtraKeepsCounts(filp, desc, cnt, extra, k, extra[k] - 1);
    TakeKeepsCounts(filp, desc, desc', less, extra[k := extra[k] - 1], p, i, d, k);
    assert less[k := less[k] + 1] == cnt;
  }
}
