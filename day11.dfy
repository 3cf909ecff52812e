// Day 11 (day11/solution.c): the node table built while reading the input,
// and the two memoised path counts over it. The fixed arrays `nodes`,
// `memo` and `memo2` with the count `node_count` are the fields of a
// Network; a memo entry that is absent stands for the C sentinel -1.
module Day11Network {
  import opened Optional
  import opened Day11Graph

  const MaxNodes: nat := 1024
  const MaxNameLen: nat := 8
  const MaxEdges: nat := 32

  /** strncpy into an 8-byte buffer (lines 35-36): at most 7 characters are kept. */
  function Stored(name: string): (s: string)
    ensures |s| < MaxNameLen
    ensures |name| < MaxNameLen ==> s == name
    ensures |name| >= MaxNameLen ==> s == name[..MaxNameLen - 1]
  {
    if |name| < MaxNameLen then name else name[..MaxNameLen - 1]
  }

  predicate Distinct(names: seq<string>) {
    forall i, j :: 0 <= i < j < |names| ==> names[i] != names[j]
  }

  /** Short names are stored as given, so the table never holds one twice. */
  lemma StoreKeepsDistinct(names: seq<string>, name: string)
    requires Distinct(names) && name !in names && |name| < MaxNameLen
    ensures Distinct(names + [Stored(name)])
  {
    var t := names + [Stored(name)];
    forall i, j | 0 <= i < j < |t| ensures t[i] != t[j] {
      if j == |names| {
        assert t[i] == names[i];
      }
    }
  }

  /** A name of 8 or more characters never equals a stored one, so every
      mention of it creates another node. */
  lemma LongNameIsNew(names: seq<string>, name: string)
    requires forall u :: 0 <= u < |names| ==> |names[u]| < MaxNameLen
    requires |name| >= MaxNameLen
    ensures name !in names
  {
  }

  /** The edge list of a node after appending ts one by one, each only while
      fewer than MaxEdges are stored (lines 129-131). */
  function Capped(base: seq<nat>, ts: seq<nat>): (r: seq<nat>)
    requires |base| <= MaxEdges
    ensures |r| <= MaxEdges
  {
    if |ts| <= MaxEdges - |base| then base + ts else base + ts[..MaxEdges - |base|]
  }

  /** One more destination is appended exactly when there is room. */
  lemma CappedStep(base: seq<nat>, ts: seq<nat>, t: nat)
    requires |base| <= MaxEdges
    ensures Capped(base, ts + [t]) ==
              if |Capped(base, ts)| < MaxEdges then Capped(base, ts) + [t] else Capped(base, ts)
  {
    if |ts| >= MaxEdges - |base| {
      assert (ts + [t])[..MaxEdges - |base|] == ts[..MaxEdges - |base|];
    }
  }

  /** The last index holding name (the search loop at lines 139-145). */
  function LastIndex(names: seq<string>, name: string): (r: Option<nat>)
    ensures r.None? <==> name !in names
    ensures r.Some? ==> r.value < |names| && names[r.value] == name && name !in names[r.value + 1..]
  {
    if names == [] then None
    else if names[|names| - 1] == name then Some(|names| - 1)
    else
      var r := LastIndex(names[..|names| - 1], name);
      assert names == names[..|names| - 1] + [names[|names| - 1]];
      if r.Some? then
        assert names[r.value + 1..] == names[..|names| - 1][r.value + 1..] + [names[|names| - 1]];
        r
      else r
  }

  /** The first index holding name. */
  function FirstIndex(names: seq<string>, name: string): (r: nat)
    requires name in names
    ensures r < |names| && names[r] == name && name !in names[..r]
  {
    if names[0] == name then 0
    else
      var r := FirstIndex(names[1..], name);
      assert names[..r + 1] == [names[0]] + names[1..][..r];
      r + 1
  }

  /**
   * The table after get_or_create_node(name) and the index it returns: the
   * first node carrying the name, or a new last node with the stored name.
   */
  function Intern(names: seq<string>, name: string): (r: (seq<string>, nat))
  {
    if name in names then (names, FirstIndex(names, name))
    else (names + [Stored(name)], |names|)
  }

  /** The table after get_or_create_node on each name of ns in turn, and the indices returned. */
  function InternAll(names: seq<string>, ns: seq<string>): (r: (seq<string>, seq<nat>))
    ensures |r.1| == |ns|
    ensures |names| <= |r.0| <= |names| + |ns| && r.0[..|names|] == names
    ensures forall m :: 0 <= m < |ns| ==> r.1[m] < |r.0|
  {
    if ns == [] then (names, [])
    else
      var (n1, ts) := InternAll(names, ns[..|ns| - 1]);
      var (n2, d) := Intern(n1, ns[|ns| - 1]);
      assert n2[..|n1|] == n1;
      (n2, ts + [d])
  }

  /** Every name of the table is shorter than MaxNameLen. */
  predicate AllShort(names: seq<string>) {
    forall u :: 0 <= u < |names| ==> |names[u]| < MaxNameLen
  }

  /**
   * Interning a name returns a node carrying its stored form; the table stays
   * short-named and, when it was and the name is short, free of duplicates (a
   * long name is cut to 7 characters, which may equal a stored name).
   */
  lemma InternResolves(names: seq<string>, name: string)
    requires AllShort(names)
    ensures AllShort(Intern(names, name).0)
    ensures Intern(names, name).0[Intern(names, name).1] == Stored(name)
    ensures Distinct(names) && |name| < MaxNameLen ==> Distinct(Intern(names, name).0)
  {
    if name !in names && |name| < MaxNameLen && Distinct(names) {
      StoreKeepsDistinct(names, name);
    }
  }

  /**
   * Interning names one by one: every returned index carries the stored form
   * of its name, and the table stays short-named and, when every name is
   * short, free of duplicates.
   */
  lemma {:induction false} InternAllResolves(names: seq<string>, ns: seq<string>)
    requires AllShort(names)
    ensures AllShort(InternAll(names, ns).0)
    ensures forall m :: 0 <= m < |ns| ==> InternAll(names, ns).0[InternAll(names, ns).1[m]] == Stored(ns[m])
    ensures Distinct(names) && AllShort(ns) ==> Distinct(InternAll(names, ns).0)
  {
    if ns != [] {
      var init := ns[..|ns| - 1];
      InternAllResolves(names, init);
      var (n1, ts) := InternAll(names, init);
      InternResolves(n1, ns[|ns| - 1]);
      var (n2, d) := Intern(n1, ns[|ns| - 1]);
      assert AllShort(ns) ==> AllShort(init) && |ns[|ns| - 1]| < MaxNameLen;
      forall m | 0 <= m < |ns| ensures n2[(ts + [d])[m]] == Stored(ns[m]) {
        if m < |init| {
          assert ns[m] == init[m];
          assert n2[..|n1|] == n1;
        }
      }
    }
  }

  /** Names that are all present already leave the table as it is. */
  lemma {:induction false} InternAllKnown(names: seq<string>, ns: seq<string>)
    requires forall m :: 0 <= m < |ns| ==> ns[m] in names
    ensures InternAll(names, ns).0 == names
  {
    if ns != [] {
      InternAllKnown(names, ns[..|ns| - 1]);
      assert ns[|ns| - 1] in names;
    }
  }

  /** Interning one more name of ns. */
  lemma InternAllStep(names: seq<string>, ns: seq<string>, k: nat)
    requires k < |ns|
    ensures InternAll(names, ns[..k + 1]) ==
              (Intern(InternAll(names, ns[..k]).0, ns[k]).0,
               InternAll(names, ns[..k]).1 + [Intern(InternAll(names, ns[..k]).0, ns[k]).1])
  {
    assert ns[..k + 1][..k] == ns[..k];
  }

  /** The table for a prefix of the names is a prefix of the table for all of them. */
  lemma {:induction false} InternAllPrefix(names: seq<string>, ns: seq<string>, k: nat)
    requires k <= |ns|
    ensures |InternAll(names, ns[..k]).0| <= |InternAll(names, ns).0|
    decreases |ns|
  {
    if k < |ns| {
      var init := ns[..|ns| - 1];
      assert ns[..k] == init[..k];
      InternAllPrefix(names, init, k);
    } else {
      assert ns[..k] == ns;
    }
  }

  /** Every node but s keeps its edges, and nodes added since have none. */
  predicate Untouched(edges0: seq<seq<nat>>, edges: seq<seq<nat>>, s: nat) {
    forall u :: 0 <= u < |edges| && u != s ==> edges[u] == if u < |edges0| then edges0[u] else []
  }

  lemma UntouchedTrans(e0: seq<seq<nat>>, e1: seq<seq<nat>>, e2: seq<seq<nat>>, s: nat)
    requires |e0| <= |e1| && Untouched(e0, e1, s) && Untouched(e1, e2, s)
    ensures Untouched(e0, e2, s)
  {
  }

  class Network {
    var names: seq<string>
    var edges: seq<seq<nat>>
    var memo: map<nat, nat>
    var memo2: map<(nat, bv2), nat>

    ghost predicate Valid()
      reads this
    {
      |names| == |edges| && |names| <= MaxNodes &&
      (forall u :: 0 <= u < |names| ==> |names[u]| < MaxNameLen && |edges[u]| <= MaxEdges) &&
      (forall u, i :: 0 <= u < |edges| && 0 <= i < |edges[u]| ==> edges[u][i] < |edges|)
    }

    /** The state before the input is read: no nodes, memos cleared (line 97-98). */
    constructor ()
      ensures Valid()
      ensures names == [] && edges == [] && memo == map[] && memo2 == map[]
    {
      names, edges, memo, memo2 := [], [], map[], map[];
    }

    /** get_or_create_node (lines 28-39). The table has no bound check: the
        caller must leave room for a new node. */
    method GetOrCreate(name: string) returns (idx: nat)
      requires Valid()
      requires name !in names ==> |names| < MaxNodes
      modifies this
      ensures Valid()
      ensures memo == old(memo) && memo2 == old(memo2)
      ensures name in old(names) ==>
                names == old(names) && edges == old(edges) &&
                idx < |names| && names[idx] == name && name !in names[..idx]
      ensures name !in old(names) ==>
                idx == |old(names)| && names == old(names) + [Stored(name)] && edges == old(edges) + [[]]
      ensures (names, idx) == Intern(old(names), name)
    {
      for i := 0 to |names|
        invariant name !in names[..i]
      {
        if names[i] == name {
          return i;
        }
      }
      assert names[..|names|] == names;
      idx := |names|;
      names := names + [Stored(name)];
      edges := edges + [[]];
    }

    /** The edge append at lines 129-131: dropped once the node has MaxEdges edges. */
    method AddEdge(src: nat, dest: nat)
      requires Valid() && src < |names| && dest < |names|
      modifies this
      ensures Valid()
      ensures names == old(names) && memo == old(memo) && memo2 == old(memo2)
      ensures edges == old(edges)[src := Capped(old(edges)[src], [dest])]
    {
      if |edges[src]| < MaxEdges {
        edges := edges[src := edges[src] + [dest]];
      } else {
        assert [dest][..MaxEdges - |edges[src]|] == [];
        assert edges[src] + [] == edges[src];
        assert edges[src := edges[src]] == edges;
      }
    }

    /** One destination of a line: find or create its node, then the capped
        append to the source's edges. */
    method Connect(s: nat, dest: string, ghost base: seq<nat>, ghost targets: seq<nat>) returns (d: nat)
      requires Valid() && s < |names| && |base| <= MaxEdges && edges[s] == Capped(base, targets)
      requires dest !in names ==> |names| < MaxNodes
      modifies this
      ensures Valid()
      ensures memo == old(memo) && memo2 == old(memo2)
      ensures |old(names)| <= |names| <= |old(names)| + 1 && names[..|old(names)|] == old(names)
      ensures d < |names| && names[d] == Stored(dest)
      ensures (names, d) == Intern(old(names), dest)
      ensures edges[s] == Capped(base, targets + [d])
      ensures Untouched(old(edges), edges, s)
    {
      d := GetOrCreate(dest);
      CappedStep(base, targets, d);
      AddEdge(s, d);
    }

    /** The destination loop of one input line (lines 126-132): for each
        destination its node and, while there is room, an edge to it from s. */
    method ConnectAll(s: nat, dests: seq<string>) returns (targets: seq<nat>)
      requires Valid() && s < |names|
      requires |InternAll(names, dests).0| <= MaxNodes
      modifies this
      ensures Valid()
      ensures memo == old(memo) && memo2 == old(memo2)
      ensures (names, targets) == InternAll(old(names), dests)
      ensures edges[s] == Capped(old(edges)[s], targets)
      ensures Untouched(old(edges), edges, s)
    {
      ghost var names0, edges0 := names, edges;
      ghost var base := edges[s];
      targets := [];
      assert dests[..0] == [];
      for k := 0 to |dests|
        invariant Valid()
        invariant memo == old(memo) && memo2 == old(memo2)
        invariant (names, targets) == InternAll(names0, dests[..k])
        invariant |targets| == k && s < |names|
        invariant edges[s] == Capped(base, targets)
        invariant |edges0| <= |edges| && Untouched(edges0, edges, s)
      {
        ghost var edges1 := edges;
        InternAllPrefix(names0, dests, k + 1);
        InternAllStep(names0, dests, k);
        var d := Connect(s, dests[k], base, targets);
        UntouchedTrans(edges0, edges1, edges, s);
        targets := targets + [d];
      }
      assert dests[..|dests|] == dests;
    }

    /** One input line "src: d1 d2 …" once split (lines 123-133): the source
        node, then the destinations. The table ends as get_or_create_node on
        src and then on each destination leaves it. */
    method AddLine(src: string, dests: seq<string>) returns (s: nat, targets: seq<nat>)
      requires Valid()
      requires |InternAll(Intern(names, src).0, dests).0| <= MaxNodes
      modifies this
      ensures Valid()
      ensures memo == old(memo) && memo2 == old(memo2)
      ensures s == Intern(old(names), src).1
      ensures (names, targets) == InternAll(Intern(old(names), src).0, dests)
      ensures |targets| == |dests|
      ensures s < |names| && names[s] == Stored(src)
      ensures forall m :: 0 <= m < |dests| ==> names[targets[m]] == Stored(dests[m])
      ensures edges[s] == Capped(if s < |old(edges)| then old(edges)[s] else [], targets)
      ensures Untouched(old(edges), edges, s)
    {
      ghost var edges0 := edges;
      s := GetOrCreate(src);
      ghost var edges1, names1 := edges, names;
      targets := ConnectAll(s, dests);
      UntouchedTrans(edges0, edges1, edges, s);
      InternAllResolves(names1, dests);
    }

    /** The search loop at lines 139-145 for one name: its last index, if any. */
    method Locate(name: string) returns (idx: Option<nat>)
      ensures idx == LastIndex(names, name)
    {
      idx := None;
      for i := 0 to |names|
        invariant idx == LastIndex(names[..i], name)
      {
        assert names[..i + 1][..i] == names[..i];
        if names[i] == name {
          idx := Some(i);
        }
      }
      assert names[..|names|] == names;
    }

    /** Every memo entry is the count of its node. */
    ghost predicate MemoSound(out: nat, rank: map<nat, nat>)
      reads this
    {
      Ranked(edges, out, rank) &&
      forall u :: u in memo ==> u in rank && u != out && memo[u] == Paths(edges, out, rank, u)
    }

    /** count_paths (lines 42-60). */
    method CountPaths(v: nat, out: nat, ghost rank: map<nat, nat>) returns (total: nat)
      requires MemoSound(out, rank) && v in rank
      modifies this
      ensures names == old(names) && edges == old(edges) && memo2 == old(memo2)
      ensures MemoSound(out, rank)
      ensures total == Paths(edges, out, rank, v)
      decreases rank[v]
    {
      if v == out {
        return 1;
      }
      if v in memo {
        return memo[v];
      }
      total := 0;
      for i := 0 to |edges[v]|
        invariant names == old(names) && edges == old(edges) && memo2 == old(memo2)
        invariant MemoSound(out, rank)
        invariant total == Total(edges, out, rank, v, i)
      {
        var c := CountPaths(edges[v][i], out, rank);
        total := total + c;
      }
      memo := memo[v := total];
    }

    /** Every part-2 memo entry is the count of its node under its mask. */
    ghost predicate Memo2Sound(out: nat, dac: nat, fft: nat, rank: map<nat, nat>)
      reads this
    {
      Ranked(edges, out, rank) &&
      forall u, s :: (u, s) in memo2 ==>
        u in rank && u != out && Mark(u, dac, fft, s) == s &&
        memo2[(u, s)] == Paths2(edges, out, dac, fft, rank, u, s)
    }

    /** count_paths2 (lines 64-87); the memo is keyed by the mask after the update. */
    method CountPaths2(v: nat, state: bv2, out: nat, dac: nat, fft: nat, ghost rank: map<nat, nat>) returns (total: nat)
      requires Memo2Sound(out, dac, fft, rank) && v in rank
      modifies this
      ensures names == old(names) && edges == old(edges) && memo == old(memo)
      ensures Memo2Sound(out, dac, fft, rank)
      ensures total == Paths2(edges, out, dac, fft, rank, v, state)
      decreases rank[v]
    {
      var s := state;
      if v == dac {
        s := s | 1;
      }
      if v == fft {
        s := s | 2;
      }
      assert s == Mark(v, dac, fft, state);
      if v == out {
        return if s == 3 then 1 else 0;
      }
      if (v, s) in memo2 {
        MarkTwice(v, dac, fft, state);
        return memo2[(v, s)];
      }
      total := 0;
      for i := 0 to |edges[v]|
        invariant names == old(names) && edges == old(edges) && memo == old(memo)
        invariant Memo2Sound(out, dac, fft, rank)
        invariant total == Total2(edges, out, dac, fft, rank, v, s, i)
      {
        var c := CountPaths2(edges[v][i], s, out, dac, fft, rank);
        total := total + c;
      }
      MarkTwice(v, dac, fft, state);
      memo2 := memo2[(v, s) := total];
    }

    /** Part 1 (lines 139-153): the paths from "you" to "out"; None where main
        reports a missing node. */
    method Part1(ghost rank: map<nat, nat>) returns (r: Option<nat>)
      requires Valid() && memo == map[]
      requires "you" in names && "out" in names ==>
                 Ranked(edges, LastIndex(names, "out").value, rank) && LastIndex(names, "you").value in rank
      modifies this
      ensures names == old(names) && edges == old(edges)
      ensures r.None? <==> "you" !in names || "out" !in names
      ensures r.Some? ==> r.value == Paths(edges, LastIndex(names, "out").value, rank, LastIndex(names, "you").value)
    {
      var you := Locate("you");
      var out := Locate("out");
      if you.None? || out.None? {
        return None;
      }
      var n := CountPaths(you.value, out.value, rank);
      return Some(n);
    }

    /** Part 2 (lines 157-162): the paths from "svr" to "out" through both
        "dac" and "fft"; None where main reports a missing node. */
    method Part2(ghost rank: map<nat, nat>) returns (r: Option<nat>)
      requires Valid() && memo2 == map[]
      requires "svr" in names && "out" in names ==>
                 Ranked(edges, LastIndex(names, "out").value, rank) && LastIndex(names, "svr").value in rank
      modifies this
      ensures names == old(names) && edges == old(edges)
      ensures r.None? <==> "svr" !in names || "out" !in names || "dac" !in names || "fft" !in names
      ensures r.Some? ==>
                r.value == Paths2(edges, LastIndex(names, "out").value, LastIndex(names, "dac").value,
                                  LastIndex(names, "fft").value, rank, LastIndex(names, "svr").value, 0)
    {
      var svr := Locate("svr");
      var out := Locate("out");
      var dac := Locate("dac");
      var fft := Locate("fft");
      if svr.None? || out.None? || dac.None? || fft.None? {
        return None;
      }
      var n := CountPaths2(svr.value, 0, out.value, dac.value, fft.value, rank);
      return Some(n);
    }
  }

  /** Marking is idempotent, so the memo key already carries v's own bits. */
  lemma MarkTwice(v: nat, dac: nat, fft: nat, state: bv2)
    ensures Mark(v, dac, fft, Mark(v, dac, fft, state)) == Mark(v, dac, fft, state)
  {
  }
}
