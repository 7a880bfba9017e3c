/**
  The exact condition under which `merge` keeps a parsed proof free of cycles
  (src/phala/anchor.ts:281-300, 428-445): for any two of its nodes about one message.
 */
module OtsForest {
  import opened Basics
  import opened OtsWire
  import opened OtsTree
  import opened OtsMerge
  import opened OtsHeap
  import opened OtsShared
  import opened OtsRun
  import opened OtsCycles

  // ---------------------------------------------------------------- ways in a forest

  /** No object is linked twice, and ranks fall along links: the objects are trees. */
  ghost predicate Forest(p: Shape, h: Heap) {
    && p.nodes == h.Keys && Ranked(p, h)
    && forall x, y, i, j ::
         x in h && y in h && 0 <= i < |h[x].ops| && 0 <= j < |h[y].ops| && h[x].ops[i].stamp == h[y].ops[j].stamp ==>
           x == y && i == j
  }

  lemma {:induction false} RankFallsProperly(p: Shape, h: Heap, x: Timestamp, way: seq<nat>, y: Timestamp)
    requires Ranked(p, h) && Leads(h, x, way, y) && x in p.nodes
    ensures y in p.nodes && p.rank[y] + |way| <= p.rank[x]
    decreases |way|
  {
    if way != [] {
      RankFallsProperly(p, h, h[x].ops[way[0]].stamp, way[1..], y);
    }
  }

  lemma ForestAcyclic(p: Shape, h: Heap)
    requires Forest(p, h)
    ensures Acyclic(h) && Closed(h)
  {
    forall x | x in h
      ensures !LeadsProperly(h, x, x)
    {
      if LeadsProperly(h, x, x) {
        var way :| way != [] && Leads(h, x, way, x);
        RankFallsProperly(p, h, x, way, x);
      }
    }
  }

  /** The last step of a way. */
  lemma {:induction false} LastStep(h: Heap, x: Timestamp, way: seq<nat>, y: Timestamp) returns (z: Timestamp)
    requires way != [] && Leads(h, x, way, y)
    ensures var last := |way| - 1;
      Leads(h, x, way[..last], z) && z in h && way[last] < |h[z].ops| && h[z].ops[way[last]].stamp == y
    decreases |way|
  {
    if |way| == 1 {
      z := x;
    } else {
      z := LastStep(h, h[x].ops[way[0]].stamp, way[1..], y);
      assert way[1..][..|way| - 2] == way[..|way| - 1][1..];
    }
  }

  /** Of two ways to one object the longer passes the start of the shorter. */
  lemma {:induction false} Passes(p: Shape, h: Heap, a: Timestamp, w: seq<nat>, b: Timestamp, v: seq<nat>, x: Timestamp)
    requires Forest(p, h) && Leads(h, a, w, x) && Leads(h, b, v, x) && |v| <= |w|
    ensures Leads(h, a, w[..|w| - |v|], b) && w[|w| - |v|..] == v
    decreases |v|
  {
    if v == [] {
      assert w[..|w|] == w && b == x;
    } else {
      var y := LastStep(h, a, w, x);
      var z := LastStep(h, b, v, x);
      var w', v' := w[..|w| - 1], v[..|v| - 1];
      assert y == z && w[|w| - 1] == v[|v| - 1];
      Passes(p, h, a, w', b, v', y);
      assert w'[..|w'| - |v'|] == w[..|w| - |v|];
      assert w[|w| - |v|..] == w'[|w'| - |v'|..] + [w[|w| - 1]] && v == v' + [v[|v| - 1]];
    }
  }

  lemma WayUnique(p: Shape, h: Heap, a: Timestamp, w: seq<nat>, v: seq<nat>, x: Timestamp)
    requires Forest(p, h) && a in h && Leads(h, a, w, x) && Leads(h, a, v, x)
    ensures w == v
  {
    if |v| <= |w| {
      Passes(p, h, a, w, a, v, x);
      RankFallsProperly(p, h, a, w[..|w| - |v|], a);
      assert w[0..] == w;
    } else {
      Passes(p, h, a, v, a, w, x);
      RankFallsProperly(p, h, a, v[..|v| - |w|], a);
    }
  }

  ghost function WayTo(h: Heap, a: Timestamp, x: Timestamp): (way: seq<nat>)
    requires LeadsTo(h, a, x)
    ensures Leads(h, a, way, x)
  {
    var way :| Leads(h, a, way, x);
    way
  }

  /** The keys along a way. */
  ghost function Keys(h: Heap, x: Timestamp, way: seq<nat>, y: Timestamp): (keys: seq<Bytes>)
    requires Leads(h, x, way, y)
    ensures |keys| == |way|
    decreases |way|
  {
    if way == [] then [] else [Key(h[x].ops[way[0]])] + Keys(h, h[x].ops[way[0]].stamp, way[1..], y)
  }

  lemma {:induction false} KeysSnoc(h: Heap, x: Timestamp, way: seq<nat>, y: Timestamp, i: nat)
    requires Leads(h, x, way, y) && y in h && i < |h[y].ops|
    ensures Leads(h, x, way + [i], h[y].ops[i].stamp)
    ensures Keys(h, x, way + [i], h[y].ops[i].stamp) == Keys(h, x, way, y) + [Key(h[y].ops[i])]
    decreases |way|
  {
    hide Key;
    LeadsSnoc(h, x, way, y, i);
    if way == [] {
      assert [i][1..] == [] && way + [i] == [i];
    } else {
      KeysSnoc(h, h[x].ops[way[0]].stamp, way[1..], y, i);
      assert (way + [i])[1..] == way[1..] + [i];
    }
  }

  // ---------------------------------------------------------------- ways of first matches

  /** Each step takes the first link with its key. */
  ghost predicate FirstWay(h: Heap, x: Timestamp, way: seq<nat>)
    decreases |way|
  {
    way == [] || (x in h && First(h[x].ops, way[0]) && FirstWay(h, h[x].ops[way[0]].stamp, way[1..]))
  }

  ghost predicate FirstTo(h: Heap, x: Timestamp, y: Timestamp) {
    exists way :: Leads(h, x, way, y) && FirstWay(h, x, way)
  }

  lemma {:induction false} FirstWaySnoc(h: Heap, x: Timestamp, way: seq<nat>, y: Timestamp, i: nat)
    requires Leads(h, x, way, y) && FirstWay(h, x, way) && y in h && First(h[y].ops, i)
    ensures FirstWay(h, x, way + [i])
    decreases |way|
  {
    hide First;
    if way == [] {
      assert way + [i] == [i] && [i][1..] == [];
    } else {
      FirstWaySnoc(h, h[x].ops[way[0]].stamp, way[1..], y, i);
      assert (way + [i])[1..] == way[1..] + [i];
    }
  }

  lemma {:induction false} FirstWayPrefix(h: Heap, x: Timestamp, way: seq<nat>, n: nat)
    requires FirstWay(h, x, way) && n <= |way|
    ensures FirstWay(h, x, way[..n])
    decreases |way|
  {
    hide Lacks;
    if n > 0 {
      FirstWayPrefix(h, h[x].ops[way[0]].stamp, way[1..], n - 1);
      assert way[..n][1..] == way[1..][..n - 1];
    }
  }

  lemma FirstToSnoc(h: Heap, x: Timestamp, y: Timestamp, i: nat)
    requires FirstTo(h, x, y) && y in h && First(h[y].ops, i)
    ensures FirstTo(h, x, h[y].ops[i].stamp)
  {
    var way :| Leads(h, x, way, y) && FirstWay(h, x, way);
    LeadsSnoc(h, x, way, y, i);
    FirstWaySnoc(h, x, way, y, i);
  }

  // ---------------------------------------------------------------- the plan without a repeating path

  ghost function Below(h: Heap, x: Timestamp): set<Timestamp> {
    set y | y in h && LeadsTo(h, x, y)
  }

  ghost function FirstBelow(h: Heap, x: Timestamp): set<Timestamp> {
    set y | y in h && FirstTo(h, x, y)
  }

  ghost function AllKeys(h: Heap): set<Bytes> {
    set x, i | x in h && 0 <= i < |h[x].ops| :: Key(h[x].ops[i])
  }

  /** A bound on finitely many tags. */
  lemma {:induction false} Bound(tag: map<Timestamp, Tag>, s: set<Timestamp>) returns (top: nat)
    requires s <= tag.Keys
    ensures forall x :: x in s ==> match tag[x] case On(round, _) => round <= top case Off(level) => level <= top
    decreases s
  {
    if s == {} {
      top := 0;
    } else {
      var x :| x in s;
      top := Bound(tag, s - {x});
      var here := match tag[x] case On(round, _) => round case Off(level) => level;
      if here > top {
        top := here;
      }
    }
  }

  lemma BelowStep(h: Heap, a: Timestamp, x: Timestamp, i: nat)
    requires Closed(h) && x in Below(h, a) && i < |h[x].ops|
    ensures h[x].ops[i].stamp in Below(h, a)
  {
    LeadsSnoc(h, a, WayTo(h, a, x), x, i);
  }

  /** In a forest the way to a child is the way to its parent and the link. */
  lemma WayStep(p: Shape, h: Heap, a: Timestamp, x: Timestamp, i: nat)
    requires Forest(p, h) && a in h && x in h && LeadsTo(h, a, x) && i < |h[x].ops|
    ensures LeadsTo(h, a, h[x].ops[i].stamp) && WayTo(h, a, h[x].ops[i].stamp) == WayTo(h, a, x) + [i]
  {
    LeadsSnoc(h, a, WayTo(h, a, x), x, i);
    WayUnique(p, h, a, WayTo(h, a, h[x].ops[i].stamp), WayTo(h, a, x) + [i], h[x].ops[i].stamp);
  }

  /** First matches from `into` come to something below `from` only through `from`, unless it is above. */
  lemma FirstThrough(p: Shape, h: Heap, into: Timestamp, from: Timestamp, x: Timestamp)
    requires Forest(p, h) && FirstTo(h, into, x) && LeadsTo(h, from, x)
    ensures FirstTo(h, into, from) || LeadsProperly(h, from, into)
  {
    var w :| Leads(h, into, w, x) && FirstWay(h, into, w);
    var v := WayTo(h, from, x);
    if |v| <= |w| {
      Passes(p, h, into, w, from, v, x);
      FirstWayPrefix(h, into, w, |w| - |v|);
    } else {
      Passes(p, h, from, v, into, w, x);
      assert |v[..|v| - |w|]| > 0;
    }
  }

  ghost function OffTags(h: Heap, into: Timestamp, from: Timestamp): map<Timestamp, Tag> {
    map x | x in FirstBelow(h, into) + Below(h, from) ::
      if x in Below(h, from) then Off(|WayTo(h, from, x)|)
      else (FirstLeads(h, into, x); Off(|WayTo(h, into, x)|))
  }

  lemma FirstLeads(h: Heap, x: Timestamp, y: Timestamp)
    requires FirstTo(h, x, y)
    ensures LeadsTo(h, x, y)
  {
  }

  lemma OffPlan(env: Env, sh: Shape, h: Heap, into: Timestamp, from: Timestamp) returns (p: Plan)
    requires Forest(sh, h) && OtsShared.Derived(env, sh, h) && into in h && from in h && into.msg == from.msg
    requires !LeadsProperly(h, from, into) && (into == from || !FirstTo(h, into, from))
    ensures Fit(env, p, h) && Pair(p, into, from) && p.chain == []
  {
    hide Forest, Key, OffTags, Below, OtsShared.Derived, LeadsProperly, FirstTo, Static, SideFits, FirstFits, KeysFit,
      Closed;
    ForestAcyclic(sh, h);
    OffTagged(sh, h, into, from);
    var tag := OffTags(h, into, from);
    var top := Bound(tag, Below(h, from));
    p := Plan(Below(h, from), tag, [], [], AllKeys(h), top);
    OffStatic(h, into, from, p);
    OffSide(env, sh, h, into, from, p);
    OffFirst(env, sh, h, into, from, p);
    KeysAll(env, sh, h, p);
  }

  lemma OffTagged(sh: Shape, h: Heap, into: Timestamp, from: Timestamp)
    requires Forest(sh, h) && into in h && from in h && !LeadsProperly(h, from, into)
    ensures var tag := OffTags(h, into, from);
      && into in tag && tag[into] == Off(0) && from in tag && tag[from] == Off(0) && from in Below(h, from)
      && Below(h, from) <= tag.Keys <= h.Keys
  {
    LeadsNowhere(h, from);
    LeadsNowhere(h, into);
    WayUnique(sh, h, from, [], WayTo(h, from, from), from);
    WayUnique(sh, h, into, [], WayTo(h, into, into), into);
    assert FirstTo(h, into, into) by { assert Leads(h, into, [], into) && FirstWay(h, into, []); }
    if into in Below(h, from) {
      assert WayTo(h, from, into) == [];
    }
  }

  lemma OffStatic(h: Heap, into: Timestamp, from: Timestamp, p: Plan)
    requires IsOffPlan(h, into, from, p) && p.side <= p.tag.Keys
    requires forall x :: x in p.side ==>
      match p.tag[x] case On(round, _) => round <= p.top case Off(level) => level <= p.top
    ensures Static(p)
  {
    hide Below, FirstBelow;
    assert forall x :: x in p.tag ==> p.tag[x].Off?;
  }

  lemma KeysAll(env: Env, sh: Shape, h: Heap, p: Plan)
    requires Forest(sh, h) && OtsShared.Derived(env, sh, h) && p.keys == AllKeys(h)
    ensures KeysFit(env, p, h)
  {
    hide Key, LinkFits, Keyed;
  }

  ghost predicate IsOffPlan(h: Heap, into: Timestamp, from: Timestamp, p: Plan) {
    p.side == Below(h, from) && p.tag == OffTags(h, into, from) && p.chain == []
  }

  lemma OffSide(env: Env, sh: Shape, h: Heap, into: Timestamp, from: Timestamp, p: Plan)
    requires Forest(sh, h) && Closed(h) && from in h && IsOffPlan(h, into, from, p) && Static(p)
    ensures SideFits(p, h)
  {
    hide Key, Static;
    assert p.side <= p.tag.Keys;
    forall x, i | x in p.side && 0 <= i < |h[x].ops|
      ensures h[x].ops[i].stamp in p.side && p.tag[h[x].ops[i].stamp] == Ahead(p, x, Key(h[x].ops[i]))
    {
      WayStep(sh, h, from, x, i);
    }
  }

  lemma OffFirst(env: Env, sh: Shape, h: Heap, into: Timestamp, from: Timestamp, p: Plan)
    requires Forest(sh, h) && Closed(h) && into in h && from in h && IsOffPlan(h, into, from, p) && Static(p)
    requires !LeadsProperly(h, from, into) && (into == from || !FirstTo(h, into, from)) && SideFits(p, h)
    ensures FirstFits(p, h)
  {
    hide Key, Static, Lacks;
    forall x, i: nat | x in p.tag && First(h[x].ops, i)
      ensures h[x].ops[i].stamp in p.tag && p.tag[h[x].ops[i].stamp] == Ahead(p, x, Key(h[x].ops[i]))
    {
      if x !in p.side {
        var y := h[x].ops[i].stamp;
        FirstToSnoc(h, into, x, i);
        FirstLeads(h, into, x);
        WayStep(sh, h, into, x, i);
        if y in p.side {
          FirstThrough(sh, h, into, from, y);
        }
      }
    }
  }

  // ---------------------------------------------------------------- the plan along a repeating path

  ghost function RunTag(word: seq<Bytes>, t: Tag, keys: seq<Bytes>): (r: Tag)
    requires InRange(word, t)
    ensures InRange(word, r)
    decreases |keys|
  {
    if keys == [] then t else Next(word, RunTag(word, t, keys[..|keys| - 1]), keys[|keys| - 1])
  }

  /** The tag of an object below `into`: `into` stands a round before `from`. */
  ghost function OnTag(h: Heap, word: seq<Bytes>, into: Timestamp, x: Timestamp): (t: Tag)
    requires word != [] && LeadsTo(h, into, x)
    ensures InRange(word, t)
  {
    RunTag(word, On(-1, 0), Keys(h, into, WayTo(h, into, x), x))
  }

  lemma OnTagStep(sh: Shape, h: Heap, word: seq<Bytes>, into: Timestamp, x: Timestamp, i: nat)
    requires Forest(sh, h) && word != [] && into in h && x in h && LeadsTo(h, into, x) && i < |h[x].ops|
    ensures LeadsTo(h, into, h[x].ops[i].stamp)
    ensures OnTag(h, word, into, h[x].ops[i].stamp) == Next(word, OnTag(h, word, into, x), Key(h[x].ops[i]))
  {
    hide Key, Next;
    WayStep(sh, h, into, x, i);
    var way, y := WayTo(h, into, x), h[x].ops[i].stamp;
    KeysSnoc(h, into, way, x, i);
    var keys := Keys(h, into, way, x);
    assert (keys + [Key(h[x].ops[i])])[..|keys|] == keys;
  }

  lemma OnTagOf(sh: Shape, h: Heap, word: seq<Bytes>, into: Timestamp, way: seq<nat>, x: Timestamp)
    requires Forest(sh, h) && word != [] && into in h && Leads(h, into, way, x)
    ensures LeadsTo(h, into, x) && OnTag(h, word, into, x) == RunTag(word, On(-1, 0), Keys(h, into, way, x))
  {
    WayUnique(sh, h, into, way, WayTo(h, into, x), x);
  }

  /** The word itself is one round. */
  lemma {:induction false} RunWord(word: seq<Bytes>, j: nat)
    requires j <= |word| && word != []
    ensures RunTag(word, On(-1, 0), word[..j]) == if j < |word| then On(-1, j) else On(0, 0)
    decreases j
  {
    if j > 0 {
      RunWord(word, j - 1);
      assert word[..j][..j - 1] == word[..j - 1];
    }
  }

  // ---------------------------------------------------------------- the chain of first matches

  /** The first link of x that goes on along the path leads to y. */
  ghost predicate Goes(h: Heap, x: Timestamp, key: Bytes, y: Timestamp) {
    x in h && exists i: nat :: First(h[x].ops, i) && Key(h[x].ops[i]) == key && h[x].ops[i].stamp == y
  }

  lemma FirstUnique(ops: seq<Link>, i: nat, j: nat)
    requires First(ops, i) && First(ops, j) && Key(ops[i]) == Key(ops[j])
    ensures i == j
  {
    FirstMeans(ops, i);
    FirstMeans(ops, j);
  }

  lemma FirstMeans(ops: seq<Link>, i: nat)
    requires First(ops, i)
    ensures forall k :: 0 <= k < i ==> Key(ops[k]) != Key(ops[i])
  {
    hide Key;
    assert forall k :: 0 <= k < i ==> ops[..i][k] == ops[k];
  }

  ghost predicate OnPath(h: Heap, word: seq<Bytes>, into: Timestamp, x: Timestamp) {
    word != [] && x in h && FirstTo(h, into, x) && LeadsTo(h, into, x) && OnTag(h, word, into, x).On?
  }

  ghost function Wanted(h: Heap, word: seq<Bytes>, into: Timestamp, x: Timestamp): Bytes
    requires OnPath(h, word, into, x)
  {
    word[OnTag(h, word, into, x).pos]
  }

  /** A chain of first matches along the path that cannot be continued. */
  ghost predicate GoodChain(h: Heap, word: seq<Bytes>, into: Timestamp, c: seq<Timestamp>) {
    && c != []
    && (forall j :: 0 <= j < |c| ==> OnPath(h, word, into, c[j]))
    && (forall j :: 0 <= j < |c| - 1 ==> Goes(h, c[j], Wanted(h, word, into, c[j]), c[j + 1]))
    && (forall j :: 0 <= j < |c| - 1 ==> OnTag(h, word, into, c[j + 1]) == Succ(word, OnTag(h, word, into, c[j])))
    && Lacks(h[c[|c| - 1]].ops, Wanted(h, word, into, c[|c| - 1]))
  }

  lemma {:induction false} BuildChain(sh: Shape, h: Heap, word: seq<Bytes>, into: Timestamp, x: Timestamp)
    returns (c: seq<Timestamp>)
    requires Forest(sh, h) && into in h && OnPath(h, word, into, x)
    ensures GoodChain(h, word, into, c) && c[0] == x
    decreases sh.rank[x]
  {
    hide Key, OnTag, FirstTo, LeadsTo, Lacks;
    var ops, key := h[x].ops, Wanted(h, word, into, x);
    match Find(ops, key)
    case None =>
      LacksAll(ops, key);
      c := [x];
    case Some(i) =>
      var y := ops[i].stamp;
      FoundFirst(ops, key, i);
      OnTagStep(sh, h, word, into, x, i);
      FirstToSnoc(h, into, x, i);
      ForestAcyclic(sh, h);
      assert OnTag(h, word, into, y) == Succ(word, OnTag(h, word, into, x));
      var rest := BuildChain(sh, h, word, into, y);
      c := [x] + rest;
      assert Goes(h, x, key, y);
      forall j | 0 <= j < |c| - 1
        ensures Goes(h, c[j], Wanted(h, word, into, c[j]), c[j + 1])
        ensures OnTag(h, word, into, c[j + 1]) == Succ(word, OnTag(h, word, into, c[j]))
      {
        if j > 0 {
          assert c[j] == rest[j - 1] && c[j + 1] == rest[j];
        }
      }
  }

  lemma LacksAll(ops: seq<Link>, key: Bytes)
    requires forall k :: 0 <= k < |ops| ==> Key(ops[k]) != key
    ensures Lacks(ops, key)
  {
  }

  lemma FoundFirst(ops: seq<Link>, key: Bytes, i: nat)
    requires i < |ops| && Key(ops[i]) == key && forall k :: 0 <= k < i ==> Key(ops[k]) != key
    ensures First(ops, i)
  {
  }

  lemma {:induction false} FirstWayLast(h: Heap, x: Timestamp, way: seq<nat>, y: Timestamp) returns (z: Timestamp)
    requires way != [] && Leads(h, x, way, y) && FirstWay(h, x, way)
    ensures var last := |way| - 1;
      && Leads(h, x, way[..last], z) && FirstWay(h, x, way[..last]) && z in h
      && First(h[z].ops, way[last]) && h[z].ops[way[last]].stamp == y
    decreases |way|
  {
    hide Lacks;
    FirstWayPrefix(h, x, way, |way| - 1);
    if |way| == 1 {
      z := x;
    } else {
      z := FirstWayLast(h, h[x].ops[way[0]].stamp, way[1..], y);
      assert way[1..][..|way| - 2] == way[..|way| - 1][1..];
    }
  }

  /** Whatever first matches meet on the path is on the chain. */
  lemma {:induction false} ChainMeets(sh: Shape, h: Heap, word: seq<Bytes>, into: Timestamp, c: seq<Timestamp>,
      way: seq<nat>, x: Timestamp)
    requires Forest(sh, h) && into in h && GoodChain(h, word, into, c) && c[0] == into
    requires Leads(h, into, way, x) && FirstWay(h, into, way) && LeadsTo(h, into, x) && OnTag(h, word, into, x).On?
    ensures |way| < |c| && c[|way|] == x
    decreases |way|
  {
    hide Key, OnTag, LeadsTo, FirstTo, Forest, Lacks;
    if way != [] {
      var j := |way| - 1;
      var z := FirstWayLast(h, into, way, x);
      OnTagStepped(sh, h, word, into, way[..j], z, way[j]);
      ChainMeets(sh, h, word, into, c, way[..j], z);
      NotLacked(h[z].ops, way[j]);
      var i: nat :| First(h[z].ops, i) && Key(h[z].ops[i]) == Wanted(h, word, into, z) && h[z].ops[i].stamp == c[j + 1];
      FirstUnique(h[z].ops, i, way[j]);
    }
  }

  lemma NotLacked(ops: seq<Link>, i: nat)
    requires i < |ops|
    ensures !Lacks(ops, Key(ops[i]))
  {
  }

  /** A step that stays on the path was taken on it, with the key that goes on. */
  lemma OnTagStepped(sh: Shape, h: Heap, word: seq<Bytes>, into: Timestamp, way: seq<nat>, z: Timestamp, i: nat)
    requires Forest(sh, h) && word != [] && into in h && Leads(h, into, way, z) && z in h && i < |h[z].ops|
    requires LeadsTo(h, into, h[z].ops[i].stamp) && OnTag(h, word, into, h[z].ops[i].stamp).On?
    ensures LeadsTo(h, into, z) && OnTag(h, word, into, z).On? && Key(h[z].ops[i]) == word[OnTag(h, word, into, z).pos]
  {
    hide Key, OnTag;
    OnTagStep(sh, h, word, into, z, i);
  }

  lemma {:induction false} ChainRises(h: Heap, word: seq<Bytes>, into: Timestamp, c: seq<Timestamp>, j: nat, k: nat)
    requires GoodChain(h, word, into, c) && j < k < |c|
    ensures Before(OnTag(h, word, into, c[j]), OnTag(h, word, into, c[k]))
    decreases k
  {
    hide OnTag, LeadsTo, FirstTo, Lacks, Goes;
    if j < k - 1 {
      ChainRises(h, word, into, c, j, k - 1);
    }
  }

  lemma {:induction false} ChainBelow(h: Heap, word: seq<Bytes>, into: Timestamp, c: seq<Timestamp>, n: nat, j: nat)
    requires GoodChain(h, word, into, c) && n <= j < |c|
    ensures LeadsTo(h, c[n], c[j])
    decreases j
  {
    hide OnTag, FirstTo, Lacks, Key;
    if n == j {
      LeadsNowhere(h, c[n]);
    } else {
      ChainBelow(h, word, into, c, n, j - 1);
      var i: nat :| First(h[c[j - 1]].ops, i) && h[c[j - 1]].ops[i].stamp == c[j];
      LeadsSnoc(h, c[n], WayTo(h, c[n], c[j - 1]), c[j - 1], i);
    }
  }

  // ---------------------------------------------------------------- putting that plan together

  lemma {:induction false} LeadsThrough(h: Heap, x: Timestamp, w: seq<nat>, y: Timestamp, v: seq<nat>, z: Timestamp)
    requires Leads(h, x, w, y) && Leads(h, y, v, z)
    ensures Leads(h, x, w + v, z)
    decreases |w|
  {
    if w == [] {
      assert w + v == v;
    } else {
      LeadsThrough(h, h[x].ops[w[0]].stamp, w[1..], y, v, z);
      assert (w + v)[1..] == w[1..] + v;
    }
  }

  ghost predicate AllBelow(h: Heap, into: Timestamp, from: Timestamp) {
    forall x :: x in FirstBelow(h, into) + Below(h, from) ==> LeadsTo(h, into, x)
  }

  lemma BelowInto(h: Heap, into: Timestamp, from: Timestamp)
    requires FirstTo(h, into, from)
    ensures AllBelow(h, into, from)
  {
    forall x | x in FirstBelow(h, into) + Below(h, from)
      ensures LeadsTo(h, into, x)
    {
      FirstLeads(h, into, from);
      if x in FirstBelow(h, into) {
        FirstLeads(h, into, x);
      } else {
        LeadsThrough(h, into, WayTo(h, into, from), from, WayTo(h, from, x), x);
      }
    }
  }

  ghost function OnTags(h: Heap, word: seq<Bytes>, into: Timestamp, from: Timestamp): map<Timestamp, Tag>
    requires word != [] && AllBelow(h, into, from)
  {
    map x | x in FirstBelow(h, into) + Below(h, from) :: OnTag(h, word, into, x)
  }

  ghost predicate IsOnPlan(h: Heap, into: Timestamp, from: Timestamp, p: Plan) {
    && p.word != [] && AllBelow(h, into, from)
    && p.side == Below(h, from) && p.tag == OnTags(h, p.word, into, from)
    && GoodChain(h, p.word, into, p.chain) && p.chain[0] == into
  }

  lemma OnChainTags(h: Heap, into: Timestamp, from: Timestamp, p: Plan)
    requires IsOnPlan(h, into, from, p)
    ensures forall x :: x in p.tag ==>
      LeadsTo(h, into, x) && p.tag[x] == OnTag(h, p.word, into, x) && InRange(p.word, p.tag[x])
    ensures forall x :: x in p.chain ==> x in p.tag && p.tag[x].On?
    ensures p.side <= p.tag.Keys <= h.Keys
    ensures forall x :: x in p.tag && x !in p.side ==> FirstTo(h, into, x)
    ensures forall x :: x in h && FirstTo(h, into, x) ==> x in p.tag
  {
    hide OnTag, Lacks, Goes, LeadsTo, FirstTo;
  }

  lemma OnStatic(sh: Shape, h: Heap, into: Timestamp, from: Timestamp, p: Plan)
    requires Forest(sh, h) && into in h && IsOnPlan(h, into, from, p) && from in p.chain
    requires forall x :: x in p.side ==>
      x in p.tag && match p.tag[x] case On(round, _) => round <= p.top case Off(level) => level <= p.top
    ensures Static(p)
  {
    hide OnTag, Lacks, Goes, OnTags, GoodChain, AllBelow, Below, Forest, LeadsTo, FirstTo, Before;
    OnChainTags(h, into, from, p);
    ChainInHeap(h, p.word, into, p.chain);
    LastBelow(h, into, from, p);
    forall x | x in p.chain && !IsLast(p, x)
      ensures Before(p.tag[x], p.tag[p.chain[|p.chain| - 1]])
    {
      var j :| 0 <= j < |p.chain| - 1 && p.chain[j] == x;
      ChainRises(h, p.word, into, p.chain, j, |p.chain| - 1);
    }
    forall x | x in p.tag && p.tag[x].On? && x !in p.side
      ensures x in p.chain
    {
      OnChainThen(sh, h, into, from, p, x);
    }
  }

  lemma LastBelow(h: Heap, into: Timestamp, from: Timestamp, p: Plan)
    requires IsOnPlan(h, into, from, p) && from in p.chain
    ensures p.chain[|p.chain| - 1] in p.side
  {
    hide OnTag, Lacks, Goes, OnTags, GoodChain, FirstTo;
    var last := |p.chain| - 1;
    ChainInHeap(h, p.word, into, p.chain);
    var n :| 0 <= n <= last && p.chain[n] == from;
    ChainBelow(h, p.word, into, p.chain, n, last);
  }

  lemma OnChainThen(sh: Shape, h: Heap, into: Timestamp, from: Timestamp, p: Plan, x: Timestamp)
    requires Forest(sh, h) && into in h && IsOnPlan(h, into, from, p)
    requires x in p.tag && p.tag[x].On? && x !in p.side
    ensures x in p.chain
  {
    hide OnTag, Lacks, Goes, OnTags, GoodChain, AllBelow, Below, Forest;
    OnChainTags(h, into, from, p);
    var way :| Leads(h, into, way, x) && FirstWay(h, into, way);
    ChainMeets(sh, h, p.word, into, p.chain, way, x);
  }

  lemma ChainInHeap(h: Heap, word: seq<Bytes>, into: Timestamp, c: seq<Timestamp>)
    requires GoodChain(h, word, into, c)
    ensures forall x :: x in c ==> x in h && OnPath(h, word, into, x)
    ensures c != []
  {
  }

  lemma OnSide(sh: Shape, h: Heap, into: Timestamp, from: Timestamp, p: Plan)
    requires Forest(sh, h) && into in h && from in h && IsOnPlan(h, into, from, p) && Static(p)
    ensures SideFits(p, h)
  {
    hide OnTag, Key, Goes, OnTags, GoodChain, LeadsTo, FirstTo, Static;
    OnChainTags(h, into, from, p);
    ForestAcyclic(sh, h);
    forall x, i | x in p.side && 0 <= i < |h[x].ops|
      ensures h[x].ops[i].stamp in p.side && p.tag[h[x].ops[i].stamp] == Ahead(p, x, Key(h[x].ops[i]))
    {
      BelowStep(h, from, x, i);
      OnTagStep(sh, h, p.word, into, x, i);
      LastLacks(h, into, from, p);
    }
  }

  /** The end of the chain has no link to go on. */
  lemma LastLacks(h: Heap, into: Timestamp, from: Timestamp, p: Plan)
    requires IsOnPlan(h, into, from, p)
    ensures var last := p.chain[|p.chain| - 1];
      last in h && last in p.tag && p.tag[last].On? && InRange(p.word, p.tag[last]) &&
        Lacks(h[last].ops, p.word[p.tag[last].pos])
  {
    hide OnTag, Lacks, Goes;
    OnChainTags(h, into, from, p);
  }

  lemma OnFirst(sh: Shape, h: Heap, into: Timestamp, from: Timestamp, p: Plan)
    requires Forest(sh, h) && into in h && from in h && IsOnPlan(h, into, from, p) && Static(p) && SideFits(p, h)
    ensures FirstFits(p, h)
  {
    hide OnTag, Key, Goes, OnTags, GoodChain, LeadsTo, FirstTo, Static, Lacks;
    OnChainTags(h, into, from, p);
    ForestAcyclic(sh, h);
    forall x, i: nat | x in p.tag && First(h[x].ops, i)
      ensures h[x].ops[i].stamp in p.tag && p.tag[h[x].ops[i].stamp] == Ahead(p, x, Key(h[x].ops[i]))
    {
      if x !in p.side {
        FirstToSnoc(h, into, x, i);
        OnTagStep(sh, h, p.word, into, x, i);
        LastLacks(h, into, from, p);
        NotLacked(h[x].ops, i);
      }
    }
  }

  lemma OnChain(sh: Shape, h: Heap, into: Timestamp, from: Timestamp, p: Plan)
    requires Forest(sh, h) && into in h && from in h && IsOnPlan(h, into, from, p) && Static(p) &&
      !LeadsProperly(h, from, into)
    ensures ChainFits(p, h)
  {
    hide OnTag, Key, OnTags, LeadsTo, FirstTo, Static, Lacks, GoodChain, First, LeadsProperly;
    OnChainTags(h, into, from, p);
    ChainInHeap(h, p.word, into, p.chain);
    forall x, i: nat | x in p.chain && i < |h[x].ops| && First(h[x].ops, i) && GoesOn(p, x, Key(h[x].ops[i]))
      ensures h[x].ops[i].stamp in p.chain && !IsLast(p, x)
    {
      LastLacks(h, into, from, p);
      NotLacked(h[x].ops, i);
      var k := GoesTo(h, into, from, p, x);
      FirstUnique(h[x].ops, i, k);
    }
    forall x | x in p.chain && !IsLast(p, x)
      ensures !Lacks(h[x].ops, p.word[p.tag[x].pos])
    {
      var k := GoesTo(h, into, from, p, x);
      NotLacked(h[x].ops, k);
    }
    forall x, i: nat | x in p.side && i < |h[x].ops| && h[x].ops[i].stamp in p.chain
      ensures x in p.chain && First(h[x].ops, i)
    {
      IntoChain(sh, h, into, from, p, x, i);
    }
    FirstInRange(p, h);
  }

  lemma FirstInRange(p: Plan, h: Heap)
    ensures forall x, i: nat :: x in h && First(h[x].ops, i) ==> i < |h[x].ops|
  {
  }

  /** The link by which the chain goes on from x. */
  lemma GoesTo(h: Heap, into: Timestamp, from: Timestamp, p: Plan, x: Timestamp) returns (k: nat)
    requires IsOnPlan(h, into, from, p) && x in p.chain && !IsLast(p, x)
    ensures x in h && x in p.tag && p.tag[x].On? && InRange(p.word, p.tag[x])
    ensures k < |h[x].ops| && First(h[x].ops, k) && Key(h[x].ops[k]) == p.word[p.tag[x].pos] &&
      h[x].ops[k].stamp in p.chain
  {
    hide OnTag, Key, OnTags, LeadsTo, FirstTo, Lacks;
    OnChainTags(h, into, from, p);
    var j :| 0 <= j < |p.chain| - 1 && p.chain[j] == x;
    assert Goes(h, x, Wanted(h, p.word, into, x), p.chain[j + 1]);
    k :| First(h[x].ops, k) && Key(h[x].ops[k]) == Wanted(h, p.word, into, x) && h[x].ops[k].stamp == p.chain[j + 1];
  }

  /** Below `from` the chain is entered only along itself. */
  lemma IntoChain(sh: Shape, h: Heap, into: Timestamp, from: Timestamp, p: Plan, x: Timestamp, i: nat)
    requires Forest(sh, h) && IsOnPlan(h, into, from, p) && !LeadsProperly(h, from, into)
    requires x in p.side && i < |h[x].ops| && h[x].ops[i].stamp in p.chain
    ensures x in p.chain && First(h[x].ops, i)
  {
    hide OnTag, Key, OnTags, FirstTo, Lacks, LeadsProperly;
    BelowProperly(h, from, x, i);
    var t :| 0 < t < |p.chain| && p.chain[t] == h[x].ops[i].stamp;
    var y := p.chain[t - 1];
    assert Goes(h, y, Wanted(h, p.word, into, y), p.chain[t]);
    var k: nat :| First(h[y].ops, k) && h[y].ops[k].stamp == p.chain[t];
  }

  lemma BelowProperly(h: Heap, from: Timestamp, x: Timestamp, i: nat)
    requires x in Below(h, from) && i < |h[x].ops|
    ensures LeadsProperly(h, from, h[x].ops[i].stamp)
  {
    LeadsSnoc(h, from, WayTo(h, from, x), x, i);
    assert |WayTo(h, from, x) + [i]| > 0;
  }

  lemma OnPlan(env: Env, sh: Shape, h: Heap, into: Timestamp, from: Timestamp) returns (p: Plan)
    requires Forest(sh, h) && OtsShared.Derived(env, sh, h) && into in h && from in h && into.msg == from.msg
    requires !LeadsProperly(h, from, into) && into != from && FirstTo(h, into, from)
    ensures Fit(env, p, h) && Pair(p, into, from) && Unjumped(p, h)
  {
    hide Key, OtsShared.Derived, LeadsProperly, FirstTo, LeadsTo, Static, SideFits, FirstFits, ChainFits, KeysFit,
      Closed, Forest,
      IsOnPlan, Lacks, AllKeys;
    ForestAcyclic(sh, h);
    p := OnParts(sh, h, into, from);
    OnStatic(sh, h, into, from, p);
    OnSide(sh, h, into, from, p);
    OnFirst(sh, h, into, from, p);
    OnChain(sh, h, into, from, p);
    KeysAll(env, sh, h, p);
    LastLacks(h, into, from, p);
    OnChainTags(h, into, from, p);
  }

  lemma OnParts(sh: Shape, h: Heap, into: Timestamp, from: Timestamp) returns (p: Plan)
    requires Forest(sh, h) && into in h && from in h && into != from && FirstTo(h, into, from)
    ensures IsOnPlan(h, into, from, p) && from in p.chain && into in p.chain && p.keys == AllKeys(h)
    ensures from in p.side && into in p.tag && from in p.tag && p.tag[into] == On(-1, 0) && p.tag[from] == On(0, 0)
    ensures forall x :: x in p.side ==>
      x in p.tag && match p.tag[x] case On(round, _) => round <= p.top case Off(level) => level <= p.top
  {
    hide Forest, OnTag, GoodChain, AllKeys, AllBelow;
    BelowInto(h, into, from);
    var way :| Leads(h, into, way, from) && FirstWay(h, into, way);
    var word := Keys(h, into, way, from);
    OnEnds(sh, h, into, from, way, word);
    var chain := BuildChain(sh, h, word, into, into);
    ChainMeets(sh, h, word, into, chain, way, from);
    var tag := OnTags(h, word, into, from);
    assert from in chain && into in chain;
    p := Plan(Below(h, from), tag, word, chain, AllKeys(h), 0);
    OnChainTags(h, into, from, p);
    var top := Bound(tag, Below(h, from));
    p := p.(top := top);
  }

  /** `into` stands one round before `from`. */
  lemma OnEnds(sh: Shape, h: Heap, into: Timestamp, from: Timestamp, way: seq<nat>, word: seq<Bytes>)
    requires Forest(sh, h) && into in h && from in h && into != from
    requires Leads(h, into, way, from) && FirstWay(h, into, way) && word == Keys(h, into, way, from)
    ensures word != [] && OnPath(h, word, into, into) && OnTag(h, word, into, into) == On(-1, 0)
    ensures LeadsTo(h, into, from) && OnTag(h, word, into, from) == On(0, 0) && from in Below(h, from)
  {
    hide OnTag;
    assert Leads(h, into, [], into) && FirstWay(h, into, []);
    OnTagOf(sh, h, word, into, [], into);
    OnTagOf(sh, h, word, into, way, from);
    RunWord(word, |word|);
    assert word[..|word|] == word;
    LeadsNowhere(h, from);
  }

  // ---------------------------------------------------------------- the exact condition

  /** The call comes to its end within so many steps, and leaves no cycle. */
  ghost predicate EndsAcyclic(env: Env, h: Heap, into: Timestamp, from: Timestamp, fuel: nat)
    requires Closed(h) && into in h && from in h
  {
    MergeRun(env, h, into, from, fuel).Done? && Acyclic(MergeRun(env, h, into, from, fuel).heap)
  }

  /** For any two nodes about one message among trees with derived messages: merge comes to its end and
      leaves no cycle, if and only if `from` does not lead to `into` by at least one link. */
  lemma MergeExact(env: Env, sh: Shape, h: Heap, into: Timestamp, from: Timestamp)
    requires Forest(sh, h) && OtsShared.Derived(env, sh, h) && into in h && from in h && into.msg == from.msg
    ensures Closed(h) && ((exists fuel :: EndsAcyclic(env, h, into, from, fuel)) <==> !LeadsProperly(h, from, into))
  {
    hide Forest, OtsShared.Derived, LeadsProperly, MergeRun, Acyclic, FirstTo, Fit, Pair, Unjumped;
    ForestAcyclic(sh, h);
    if LeadsProperly(h, from, into) {
      forall fuel: nat
        ensures !EndsAcyclic(env, h, into, from, fuel)
      {
        AboveCloses(env, h, into, from, fuel);
      }
    } else {
      var p: Plan;
      if into == from || !FirstTo(h, into, from) {
        p := OffPlan(env, sh, h, into, from);
      } else {
        p := OnPlan(env, sh, h, into, from);
      }
      var fuel := PlannedEnds(env, p, h, into, from);
      assert EndsAcyclic(env, h, into, from, fuel);
    }
  }

  lemma PlannedEnds(env: Env, p: Plan, h: Heap, into: Timestamp, from: Timestamp) returns (fuel: nat)
    requires Acyclic(h) && Fit(env, p, h) && Pair(p, into, from) && (p.chain == [] || Unjumped(p, h))
    ensures into in h && from in h && EndsAcyclic(env, h, into, from, fuel)
  {
    hide SideFits, FirstFits, ChainFits, KeysFit, Closed, MergeRun, Acyclic, Unjumped;
    fuel := PairFinishes(env, p, h, into, from);
    StaysAcyclic(env, p, h, MergeRun(env, h, into, from, fuel).heap);
  }

  /** A parsed proof is such a tree. */
  lemma ParsedForest(env: Env, root: Timestamp) returns (sh: Shape)
    requires root.Valid() && Mergeable(env, root.value)
    ensures root in sh.nodes && sh.nodes <= root.repr && Forest(sh, Now(sh)) && OtsShared.Derived(env, sh, Now(sh))
  {
    hide PartOf, Height, Timestamp.Valid, Mergeable, Keyed, ApplyOp;
    var m := Levels(env, root, Height(root.value));
    sh := Shape(m.Keys, RankBy(m, Height(root.value)), {}, map[], {});
    var h := Now(sh);
    forall x | x in m
      ensures forall i :: 0 <= i < |x.ops| ==> LinkFits(env, x.msg, x.ops[i])
      ensures forall a :: a in x.attestations ==> Keyed(env, a)
    {
      PartMergeable(env, x.value, root.value);
      MergeableFits(env, x);
    }
    LevelsFall(env, root, m);
  }

  ghost function RankBy(m: map<Timestamp, int>, top: int): map<Timestamp, nat> {
    map x | x in m :: if m[x] >= 0 then m[x] as nat else 0
  }

  lemma LevelsFall(env: Env, root: Timestamp, m: map<Timestamp, int>)
    requires Leveled(env, root.value, Height(root.value), m)
    ensures forall x :: x in m ==> m[x] > 0
  {
    hide PartOf, Timestamp.Valid, MaxHeight;
  }

  lemma PartMergeable(env: Env, x: Stamp, t: Stamp)
    requires PartOf(env, x, t) && Mergeable(env, t)
    ensures Mergeable(env, x)
  {
  }

  /** merge within a parsed proof: for any two of its nodes about one message it comes to its end and leaves
      no cycle, if and only if the one merged in is not above the other. */
  lemma ParsedMergeExact(env: Env, root: Timestamp) returns (sh: Shape)
    requires root.Valid() && Mergeable(env, root.value)
    ensures root in sh.nodes && Closed(Now(sh))
    ensures forall into, from :: into in sh.nodes && from in sh.nodes && into.msg == from.msg ==>
      ((exists fuel :: EndsAcyclic(env, Now(sh), into, from, fuel)) <==> !LeadsProperly(Now(sh), from, into))
  {
    hide Timestamp.Valid, Mergeable, Forest, OtsShared.Derived, LeadsProperly, EndsAcyclic;
    sh := ParsedForest(env, root);
    ForestAcyclic(sh, Now(sh));
    ForestNodes(sh, Now(sh));
    forall into, from | into in sh.nodes && from in sh.nodes && into.msg == from.msg
      ensures (exists fuel :: EndsAcyclic(env, Now(sh), into, from, fuel)) <==> !LeadsProperly(Now(sh), from, into)
    {
      MergeExact(env, sh, Now(sh), into, from);
    }
  }

  lemma ForestNodes(sh: Shape, h: Heap)
    requires Forest(sh, h)
    ensures sh.nodes == h.Keys
  {
  }

  /** An input on which it does: a node whose only link, `append` of no bytes, leads to a node without
      links. Merging the first into the second makes the second its own child. */
  lemma AppendNothingCloses(env: Env, h: Heap, parent: Timestamp, child: Timestamp)
    requires Closed(h) && parent in h && child in h && parent != child && parent.msg == child.msg
    requires var e := Link(Op(OP_APPEND, Some([])), child); h[parent].ops == [e] && h[child].ops == []
    ensures LinkFits(env, parent.msg, h[parent].ops[0])
    ensures var r := MergeRun(env, h, child, parent, 3);
      r.Done? && |r.heap[child].ops| == 1 && r.heap[child].ops[0].stamp == child && !Acyclic(r.heap)
  {
    hide WriteOp, MergeAttestations;
    var e := Link(Op(OP_APPEND, Some([])), child);
    var h1 := h[child := Fields(MergeAttestations(env, h[child].attestations, h[parent].attestations), [])];
    var h2 := WithLink(h1, child, e);
    assert Find([], Key(e)) == None;
    assert EntryRun(env, h1, child, e, 1) == Done(h2);
    assert LoopRun(env, h2, child, parent, 1, 1) == Done(h2);
    assert LoopRun(env, h1, child, parent, 0, 2) == Done(h2);
    assert h2[child].ops == [e];
    LeadsNowhere(h2, child);
    LeadsCons(h2, child, 0, WayTo(h2, child, child), child);
    assert parent.msg + [] == parent.msg;
  }
}
