/**
 * The process utilities of the catpc prototype: the pid-directory filter,
 * the node count of a process tree, its preorder flattening into a pid
 * array, and the matching kernel of the cmdline lookup. Trees and the
 * per-process cmdline contents are given as data; building them from
 * `/proc` is not modelled.
 */
module CatpcUtils {
  import opened Wrappers
  import opened Bytes

  // ---------------------------------------------------------------------------
  // filter_pids
  // ---------------------------------------------------------------------------

  /** `isdigit` in the C locale. */
  predicate IsDigit(c: char)
  {
    '0' <= c <= '9'
  }

  /** The digit scan of `filter_pids`, from position `from` to the end of the name. */
  function ScanDigits(name: seq<char>, from: nat): (r: int)
    requires from <= |name|
    ensures r == 0 || r == 1
    ensures r == 1 <==> forall i :: from <= i < |name| ==> IsDigit(name[i])
    decreases |name| - from
  {
    if from == |name| then 1
    else if !IsDigit(name[from]) then 0
    else ScanDigits(name, from + 1)
  }

  /**
   * `filter_pids`: the `scandir` filter that keeps the entries of a `/proc`
   * directory that name a process. A leading '.' rejects the name, then any
   * character that is not a decimal digit does; every other name, the empty
   * one included, is kept. `name` is the characters of `d_name` before its
   * terminator, so it holds no NUL.
   */
  function FilterPids(name: seq<char>): (r: int)
    requires '\0' !in name
    ensures r == 0 || r == 1
    ensures |name| > 0 && name[0] == '.' ==> r == 0
    ensures r == 1 <==> forall i :: 0 <= i < |name| ==> IsDigit(name[i])
  {
    if |name| > 0 && name[0] == '.' then 0
    else ScanDigits(name, 0)
  }

  // ---------------------------------------------------------------------------
  // Process trees: get_num_pids and tree_to_list
  // ---------------------------------------------------------------------------

  /** A `struct process_tree`: a pid and its children, `child_count` of them, none null. */
  datatype ProcessTree = Node(pid: i32, children: seq<ProcessTree>)

  /** `get_num_pids`: 1 for a leaf, else 1 plus the counts of the children. */
  function NumPids(t: ProcessTree): (r: nat)
    ensures r >= 1
    ensures t.children == [] ==> r == 1
    decreases t
  {
    if |t.children| == 0 then 1 else 1 + SumNumPids(t.children)
  }

  /** The sum the loop of `get_num_pids` accumulates over a sequence of children. */
  function SumNumPids(ts: seq<ProcessTree>): (r: nat)
    ensures r >= |ts|
    decreases ts
  {
    if ts == [] then 0 else NumPids(ts[0]) + SumNumPids(ts[1..])
  }

  /** The pids of a tree in preorder: the root, then each child's subtree left to right. */
  function Preorder(t: ProcessTree): (r: seq<i32>)
    decreases t
  {
    [t.pid] + PreorderAll(t.children)
  }

  function PreorderAll(ts: seq<ProcessTree>): (r: seq<i32>)
    decreases ts
  {
    if ts == [] then [] else Preorder(ts[0]) + PreorderAll(ts[1..])
  }

  /** `p` is the pid of a node of `t`. */
  predicate InTree(p: i32, t: ProcessTree)
    decreases t
  {
    p == t.pid || exists i :: 0 <= i < |t.children| && InTree(p, t.children[i])
  }

  /** The count of `get_num_pids` is the length of the preorder listing: one entry per node. */
  lemma {:induction false} PreorderLength(t: ProcessTree)
    ensures |Preorder(t)| == NumPids(t)
    decreases t
  {
    PreorderAllLength(t.children);
  }

  lemma {:induction false} PreorderAllLength(ts: seq<ProcessTree>)
    ensures |PreorderAll(ts)| == SumNumPids(ts)
    decreases ts
  {
    if ts != [] {
      PreorderLength(ts[0]);
      PreorderAllLength(ts[1..]);
    }
  }

  /** The concatenation of two child lists sums their counts and concatenates their listings. */
  lemma {:induction false} AppendChildren(a: seq<ProcessTree>, b: seq<ProcessTree>)
    ensures SumNumPids(a + b) == SumNumPids(a) + SumNumPids(b)
    ensures PreorderAll(a + b) == PreorderAll(a) + PreorderAll(b)
    decreases a
  {
    if a == [] {
      assert a + b == b;
    } else {
      assert (a + b)[0] == a[0];
      assert (a + b)[1..] == a[1..] + b;
      AppendChildren(a[1..], b);
    }
  }

  lemma PrefixSnoc<T>(s: seq<T>, j: nat)
    requires j < |s|
    ensures s[..j + 1] == s[..j] + [s[j]]
    ensures s == s[..j + 1] + s[j + 1..]
  {
  }

  lemma SingleChild(t: ProcessTree)
    ensures SumNumPids([t]) == NumPids(t) && PreorderAll([t]) == Preorder(t)
  {
    assert [t][1..] == [];
  }

  /** One more child: the prefix sums and listings the loop of `tree_to_list` extends. */
  lemma NextChild(ts: seq<ProcessTree>, j: nat)
    requires j < |ts|
    ensures SumNumPids(ts[..j + 1]) == SumNumPids(ts[..j]) + NumPids(ts[j])
    ensures PreorderAll(ts[..j + 1]) == PreorderAll(ts[..j]) + Preorder(ts[j])
    ensures SumNumPids(ts[..j + 1]) <= SumNumPids(ts)
  {
    PrefixSnoc(ts, j);
    AppendChildren(ts[..j], [ts[j]]);
    SingleChild(ts[j]);
    AppendChildren(ts[..j + 1], ts[j + 1..]);
  }

  /** The preorder listing holds exactly the pids of the tree's nodes. */
  lemma {:induction false} PreorderMembers(p: i32, t: ProcessTree)
    ensures p in Preorder(t) <==> InTree(p, t)
    decreases t
  {
    PreorderAllMembers(p, t.children);
  }

  lemma {:induction false} PreorderAllMembers(p: i32, ts: seq<ProcessTree>)
    ensures p in PreorderAll(ts) <==> exists i :: 0 <= i < |ts| && InTree(p, ts[i])
    decreases ts
  {
    if ts != [] {
      PreorderMembers(p, ts[0]);
      PreorderAllMembers(p, ts[1..]);
      if p in PreorderAll(ts[1..]) {
        var i :| 0 <= i < |ts[1..]| && InTree(p, ts[1..][i]);
        assert InTree(p, ts[i + 1]);
      }
      if exists i :: 0 <= i < |ts| && InTree(p, ts[i]) {
        var i :| 0 <= i < |ts| && InTree(p, ts[i]);
        if i > 0 {
          assert InTree(p, ts[1..][i - 1]);
        }
      }
    }
  }

  /**
   * Writing `after[mid..hi]` over `before` and keeping the rest: the run from
   * `lo` grows by the new part, and what lies before `mid` or from `end` is kept.
   */
  lemma Extend<T>(before: seq<T>, after: seq<T>, lo: nat, mid: nat, hi: nat, end: nat)
    requires lo <= mid <= hi <= end <= |before| == |after|
    requires after[..mid] == before[..mid] && after[hi..] == before[hi..]
    ensures after[lo..hi] == before[lo..mid] + after[mid..hi]
    ensures after[..lo] == before[..lo]
    ensures after[end..] == before[end..]
  {
    assert after[..lo] == after[..mid][..lo];
    assert before[..lo] == before[..mid][..lo];
    assert after[end..] == after[hi..][end - hi..];
    assert before[end..] == before[hi..][end - hi..];
    assert after[lo..mid] == after[..mid][lo..];
    assert before[lo..mid] == before[..mid][lo..];
  }

  /**
   * `tree_to_list`: store the root's pid at `index`, then each child's subtree
   * from the index the previous one returned; return the next free index.
   * The array must have room for the whole tree from `index` on.
   */
  method TreeToList(t: ProcessTree, pids: array<i32>, index: nat) returns (next: nat)
    requires index + NumPids(t) <= pids.Length
    modifies pids
    ensures next == index + NumPids(t)
    ensures pids[index..next] == Preorder(t)
    ensures pids[..index] == old(pids[..index])
    ensures pids[next..] == old(pids[next..])
    decreases t, 1
  {
    pids[index] := t.pid;
    ghost var before := pids[..];
    next := ChildrenToList(t.children, pids, index + 1);
    Extend(before, pids[..], index, index + 1, next, next);
    assert before[index..index + 1] == [t.pid];
    assert before[..index] == old(pids[..index]);
    assert before[next..] == old(pids[next..]);
  }

  /** The loop of `tree_to_list` over the children: each subtree from the index the previous one returned. */
  method ChildrenToList(kids: seq<ProcessTree>, pids: array<i32>, start: nat) returns (next: nat)
    requires start + SumNumPids(kids) <= pids.Length
    modifies pids
    ensures next == start + SumNumPids(kids)
    ensures pids[start..next] == PreorderAll(kids)
    ensures pids[..start] == old(pids[..start])
    ensures pids[next..] == old(pids[next..])
    decreases kids, 0
  {
    ghost var end := start + SumNumPids(kids);
    next := start;
    for j := 0 to |kids|
      invariant next == start + SumNumPids(kids[..j]) <= end
      invariant pids[start..next] == PreorderAll(kids[..j])
      invariant pids[..start] == old(pids[..start])
      invariant pids[end..] == old(pids[end..])
    {
      NextChild(kids, j);
      ghost var before, mid := pids[..], next;
      next := TreeToList(kids[j], pids, next);
      Extend(before, pids[..], start, mid, next, end);
    }
    assert kids[..|kids|] == kids;
  }

  /**
   * The callers' pattern: allocate `get_num_pids(tree)` pids and flatten the
   * tree from index 0; the listing fills the array exactly.
   */
  method FlattenTree(t: ProcessTree) returns (pids: array<i32>, end: nat)
    ensures fresh(pids) && pids.Length == NumPids(t) == end
    ensures pids[..] == Preorder(t)
  {
    pids := new i32[NumPids(t)];
    end := TreeToList(t, pids, 0);
    assert pids[..] == pids[0..end];
  }

  // ---------------------------------------------------------------------------
  // The matching kernel of get_pids_by_cmdline
  // ---------------------------------------------------------------------------

  /** The size of the buffer the cmdline contents are copied into, terminator included. */
  const ProcCmdlineBufSize: nat := 1024

  /**
   * One pid listed by `ps`, with the contents of its `/proc/<pid>/cmdline`
   * file, or None when the file could not be opened.
   */
  datatype ProcEntry = ProcEntry(pid: i32, cmdline: Option<seq<char>>)

  /** The contents with every NUL character removed, the others kept in order. */
  function StripNul(s: seq<char>): (r: seq<char>)
    ensures |r| <= |s|
    ensures forall c :: c in r <==> c in s && c != '\0'
  {
    if s == [] then []
    else StripNul(s[..|s| - 1]) + (if s[|s| - 1] == '\0' then [] else [s[|s| - 1]])
  }

  /** A process matches when its cmdline contents, stripped of NULs, equal the target. */
  predicate Matches(e: ProcEntry, target: seq<char>)
  {
    e.cmdline.Some? && StripNul(e.cmdline.value) == target
  }

  /** Every process's stripped contents fit the buffer together with the terminator. */
  predicate FitsBuffer(procs: seq<ProcEntry>)
  {
    forall k :: 0 <= k < |procs| && procs[k].cmdline.Some? ==> |StripNul(procs[k].cmdline.value)| < ProcCmdlineBufSize
  }

  /** The pids of the matching processes, in the order `ps` lists them. */
  function MatchingPids(procs: seq<ProcEntry>, target: seq<char>): (r: seq<i32>)
    ensures |r| <= |procs|
  {
    if procs == [] then []
    else
      MatchingPids(procs[..|procs| - 1], target)
      + (if Matches(procs[|procs| - 1], target) then [procs[|procs| - 1].pid] else [])
  }

  /** Stripping distributes over concatenation. */
  lemma {:induction false} StripNulAppend(a: seq<char>, b: seq<char>)
    ensures StripNul(a + b) == StripNul(a) + StripNul(b)
    decreases |b|
  {
    if b == [] {
      assert a + b == a;
    } else {
      var last := b[|b| - 1];
      assert (a + b)[..|a + b| - 1] == a + b[..|b| - 1];
      StripNulAppend(a, b[..|b| - 1]);
    }
  }

  /** Contents without NULs are left as they are; so stripping twice is stripping once. */
  lemma {:induction false} StripNulKeeps(s: seq<char>)
    requires '\0' !in s
    ensures StripNul(s) == s
  {
    if s != [] {
      assert '\0' !in s[..|s| - 1] by {
        assert forall c :: c in s[..|s| - 1] ==> c in s;
      }
      StripNulKeeps(s[..|s| - 1]);
    }
  }

  lemma StripNulIdempotent(s: seq<char>)
    ensures StripNul(StripNul(s)) == StripNul(s)
  {
    StripNulKeeps(StripNul(s));
  }

  /** A pid is in the result exactly when some listed process with that pid matches. */
  lemma {:induction false} MatchingPidsMembers(procs: seq<ProcEntry>, target: seq<char>, p: i32)
    ensures p in MatchingPids(procs, target) <==>
              exists k :: 0 <= k < |procs| && procs[k].pid == p && Matches(procs[k], target)
  {
    if procs != [] {
      var init := procs[..|procs| - 1];
      MatchingPidsMembers(init, target, p);
      if exists k :: 0 <= k < |init| && init[k].pid == p && Matches(init[k], target) {
        var k :| 0 <= k < |init| && init[k].pid == p && Matches(init[k], target);
        assert procs[k] == init[k];
      }
      if exists k :: 0 <= k < |procs| && procs[k].pid == p && Matches(procs[k], target) {
        var k :| 0 <= k < |procs| && procs[k].pid == p && Matches(procs[k], target);
        if k < |init| {
          assert init[k] == procs[k];
        }
      }
    }
  }

  /** Lengths: a process without a cmdline file, or one that does not match, adds no pid. */
  lemma {:induction false} MatchingPidsNone(procs: seq<ProcEntry>, target: seq<char>)
    requires forall k :: 0 <= k < |procs| ==> !Matches(procs[k], target)
    ensures MatchingPids(procs, target) == []
  {
    if procs != [] {
      MatchingPidsNone(procs[..|procs| - 1], target);
    }
  }

  /**
   * Read one cmdline file character by character into `buf`, skipping NULs,
   * and terminate it; return the number of characters kept.
   */
  method ReadProcCmdline(contents: seq<char>, buf: array<char>) returns (i: nat)
    requires buf.Length == ProcCmdlineBufSize && |StripNul(contents)| < ProcCmdlineBufSize
    modifies buf
    ensures i == |StripNul(contents)|
    ensures buf[..i] == StripNul(contents) && buf[i] == '\0'
  {
    i := 0;
    for k := 0 to |contents|
      invariant i == |StripNul(contents[..k])| <= |StripNul(contents)|
      invariant buf[..i] == StripNul(contents[..k])
    {
      var c := contents[k];
      StripNulStep(contents, k);
      if c == '\0' {
        continue;
      }
      buf[i] := c;
      i := i + 1;
    }
    assert contents[..|contents|] == contents;
    buf[i] := '\0';
  }

  /** One character more read: it is kept unless it is a NUL, and the kept ones never outnumber the whole file's. */
  lemma StripNulStep(contents: seq<char>, k: nat)
    requires k < |contents|
    ensures StripNul(contents[..k + 1]) ==
              StripNul(contents[..k]) + (if contents[k] == '\0' then [] else [contents[k]])
    ensures |StripNul(contents[..k + 1])| <= |StripNul(contents)|
  {
    assert contents[..k + 1][..k] == contents[..k];
    StripNulAppend(contents[..k + 1], contents[k + 1..]);
    assert contents[..k + 1] + contents[k + 1..] == contents;
  }

  /** Whether one listed process matches: open its cmdline file, read it into `buf`, compare. */
  method Check(e: ProcEntry, target: seq<char>, buf: array<char>) returns (m: bool)
    requires buf.Length == ProcCmdlineBufSize
    requires e.cmdline.Some? ==> |StripNul(e.cmdline.value)| < ProcCmdlineBufSize
    modifies buf
    ensures m == Matches(e, target)
  {
    if e.cmdline.None? {
      return false;
    }
    var i := ReadProcCmdline(e.cmdline.value, buf);
    m := buf[..i] == target;
  }

  /**
   * The matching kernel of `get_pids_by_cmdline`: for each listed pid whose
   * cmdline file opens, strip its NULs into the buffer and compare the result
   * with the target (a C string, so without NUL); store the matching pids from
   * position 0 and return their count.
   */
  method GetPidsByCmdline(procs: seq<ProcEntry>, target: seq<char>, pids: array<i32>) returns (sz: nat)
    requires '\0' !in target && FitsBuffer(procs)
    requires |MatchingPids(procs, target)| <= pids.Length
    modifies pids
    ensures sz == |MatchingPids(procs, target)|
    ensures pids[..sz] == MatchingPids(procs, target)
    ensures pids[sz..] == old(pids[sz..])
  {
    var buf := new char[ProcCmdlineBufSize];
    sz := 0;
    for k := 0 to |procs|
      invariant sz == |MatchingPids(procs[..k], target)| <= pids.Length
      invariant pids[..sz] == MatchingPids(procs[..k], target)
      invariant pids[sz..] == old(pids[sz..])
    {
      MatchingPrefix(procs, target, k);
      var e := procs[k];
      var m := Check(e, target, buf);
      if m {
        Put(pids, sz, e.pid);
        sz := sz + 1;
      }
    }
    assert procs[..|procs|] == procs;
  }

  /** `pids[sz] = pid`: one more pid stored after the first `sz`, the rest of the array untouched. */
  method Put(pids: array<i32>, sz: nat, pid: i32)
    requires sz < pids.Length
    modifies pids
    ensures pids[..sz + 1] == old(pids[..sz]) + [pid]
    ensures pids[sz + 1..] == old(pids[sz + 1..])
  {
    pids[sz] := pid;
  }

  /**
   * One more process considered: its pid follows the earlier matches when it
   * matches, and the matches of a prefix never outnumber those of the whole list.
   */
  lemma MatchingPrefix(procs: seq<ProcEntry>, target: seq<char>, k: nat)
    requires k < |procs|
    ensures MatchingPids(procs[..k + 1], target) ==
              MatchingPids(procs[..k], target) + (if Matches(procs[k], target) then [procs[k].pid] else [])
    ensures |MatchingPids(procs[..k + 1], target)| <= |MatchingPids(procs, target)|
  {
    assert procs[..k + 1][..k] == procs[..k];
    MatchingAppend(procs[..k + 1], procs[k + 1..], target);
    assert procs[..k + 1] + procs[k + 1..] == procs;
  }

  lemma {:induction false} MatchingAppend(a: seq<ProcEntry>, b: seq<ProcEntry>, target: seq<char>)
    ensures MatchingPids(a + b, target) == MatchingPids(a, target) + MatchingPids(b, target)
    decreases |b|
  {
    if b == [] {
      assert a + b == a;
    } else {
      assert (a + b)[..|a + b| - 1] == a + b[..|b| - 1];
      MatchingAppend(a, b[..|b| - 1], target);
    }
  }
}
