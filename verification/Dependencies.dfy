/** The include-dependency tracker: a breadth-first search over include and sibling edges with
    exclusions, and the analysis of what each header cuts off. */
module Dependencies {

  import opened Optional
  import JsonValue

  /** The files that exist, each with the names its include lines quote, in order. */
  type Files = map<string, seq<string>>

  predicate IsHeader(f: string) { |f| >= 2 && f[|f| - 2..] == ".h" }

  /** The header's name with its last letter replaced. */
  function Sibling(f: string, extension: string): string
    requires IsHeader(f)
  {
    f[..|f| - 1] + extension
  }

  function SiblingEdge(files: Files, f: string, extension: string): seq<string> {
    if IsHeader(f) && Sibling(f, extension) in files then [Sibling(f, extension)] else []
  }

  function Includes(files: Files, f: string): seq<string> {
    if f in files then files[f] else []
  }

  /** The edges out of a file in the order they are followed. */
  function Out(files: Files, f: string): seq<string> {
    SiblingEdge(files, f, "cc") + SiblingEdge(files, f, "mm") + Includes(files, f)
  }

  // ---- Reachability ----

  /** p leads from the target along edges and meets no excluded file. */
  ghost predicate Walk(files: Files, excludes: set<string>, target: string, p: seq<string>) {
    && |p| > 0 && p[0] == target
    && (forall i :: 0 <= i < |p| ==> p[i] !in excludes)
    && (forall i :: 0 < i < |p| ==> p[i] in Out(files, p[i - 1]))
  }

  ghost predicate WalkTo(files: Files, excludes: set<string>, target: string, p: seq<string>, x: string) {
    Walk(files, excludes, target, p) && p[|p| - 1] == x
  }

  ghost predicate Reachable(files: Files, excludes: set<string>, target: string, x: string) {
    exists p :: WalkTo(files, excludes, target, p, x)
  }

  /** p follows `wherefrom` back from x to the start of the search. */
  ghost predicate Trail(wherefrom: map<string, Option<string>>, p: seq<string>, x: string) {
    && |p| > 0 && p[|p| - 1] == x
    && (forall i :: 0 <= i < |p| ==> p[i] in wherefrom)
    && wherefrom[p[0]] == None
    && (forall i :: 0 < i < |p| ==> wherefrom[p[i]] == Some(p[i - 1]))
  }

  /** A walk to x that is as short as any. */
  ghost predicate Shortest(files: Files, excludes: set<string>, target: string, p: seq<string>, x: string) {
    && WalkTo(files, excludes, target, p, x)
    && forall q :: WalkTo(files, excludes, target, q, x) ==> |p| <= |q|
  }

  // ---- The search state ----

  datatype Search = Search(
    q: seq<string>,
    vis: set<string>,
    depmap: map<string, seq<string>>,
    wherefrom: map<string, Option<string>>)

  const START := Search([], {}, map[], map[])

  /** The part of enq for a file that is not excluded. */
  function Enqueue(s: Search, x: string, now: Option<string>): Search {
    if x in s.vis then s
    else Search(s.q + [x], s.vis + {x}, s.depmap[x := []], s.wherefrom[x := now])
  }

  /** The edges in terms of the names: a header stem.h leads to stem.cc and stem.mm where they
      exist, and every file to the files it includes. */
  lemma EdgesAre(files: Files, f: string)
    ensures forall stem :: f == stem + ".h" ==>
      Out(files, f) == IfThere(files, stem + ".cc") + IfThere(files, stem + ".mm") + if f in files then files[f] else []
    ensures (forall stem :: f != stem + ".h") ==> Out(files, f) == if f in files then files[f] else []
  {
    forall stem | f == stem + ".h"
      ensures IsHeader(f) && Sibling(f, "cc") == stem + ".cc" && Sibling(f, "mm") == stem + ".mm"
    {
      HeaderName(stem);
    }
    if IsHeader(f) {
      assert f == f[..|f| - 2] + ".h";
    }
  }

  function IfThere(files: Files, f: string): seq<string> { if f in files then [f] else [] }

  lemma HeaderName(stem: string)
    ensures IsHeader(stem + ".h")
    ensures forall e :: Sibling(stem + ".h", e) == stem + "." + e
    ensures stem + "." + "cc" == stem + ".cc" && stem + "." + "mm" == stem + ".mm"
    ensures forall ex :: WithoutHeader(ex, stem + ".h") == ex + {stem + ".h", stem + ".cc"}
  {
    var h := stem + ".h";
    assert h[|h| - 2..] == ".h";
    assert h[..|h| - 1] == stem + ".";
  }

  /** In an answer, with a header come its sources that exist and are not excluded. */
  lemma SiblingsFollow(files: Files, excludes: set<string>, target: string,
                       depmap: map<string, seq<string>>, wherefrom: map<string, Option<string>>, stem: string)
    requires Answers(files, excludes, target, depmap, wherefrom) && stem + ".h" in depmap
    ensures stem + ".cc" in files && stem + ".cc" !in excludes ==> stem + ".cc" in depmap
    ensures stem + ".mm" in files && stem + ".mm" !in excludes ==> stem + ".mm" in depmap
  {
    hide Reachable;
    HeaderName(stem);
    forall x | x in {stem + ".cc", stem + ".mm"} && x in files && x !in excludes
      ensures Reachable(files, excludes, target, x)
    {
      OneEdgeFurther(files, excludes, target, stem + ".h", x);
    }
  }

  lemma OneEdgeFurther(files: Files, excludes: set<string>, target: string, y: string, x: string)
    requires Reachable(files, excludes, target, y) && x in Out(files, y) && x !in excludes
    ensures Reachable(files, excludes, target, x)
  {
    hide Out;
    var p :| WalkTo(files, excludes, target, p, y);
    assert WalkTo(files, excludes, target, p + [x], x);
  }

  /** What the search knows: `done` is processed, `cur` (at most one file) is being processed and
      its edges `seen` were followed, the queue is next. `dist` is the distance from the target. */
  ghost predicate Inv(files: Files, excludes: set<string>, target: string, s: Search, dist: map<string, nat>,
                      done: set<string>, cur: seq<string>, seen: seq<string>)
  {
    && Keys(s, dist) && |cur| <= 1
    && Layers(s, dist, done, cur + s.q)
    && Tree(files, excludes, target, s, dist, done, cur)
    && Closed(files, excludes, s, dist, done, cur, seen)
  }

  ghost predicate Keys(s: Search, dist: map<string, nat>) {
    s.depmap.Keys == s.vis && s.wherefrom.Keys == s.vis && dist.Keys == s.vis
  }

  /** The queue holds each waiting file once, in the order of distances that differ by at most one. */
  ghost predicate Layers(s: Search, dist: map<string, nat>, done: set<string>, queue: seq<string>)
    requires Keys(s, dist)
  {
    && (forall x :: x in s.vis <==> x in done || x in queue)
    && (forall i :: 0 <= i < |queue| ==> queue[i] !in done)
    && Ordered(dist, queue)
    && (queue != [] ==> forall y :: y in done ==> dist[y] <= dist[queue[0]])
  }

  ghost predicate Ordered(dist: map<string, nat>, queue: seq<string>)
    requires forall x :: x in queue ==> x in dist
  {
    && (forall i, j :: 0 <= i < j < |queue| ==> queue[i] != queue[j])
    && (forall i, j :: 0 <= i <= j < |queue| ==> dist[queue[i]] <= dist[queue[j]])
    && (forall i :: 0 <= i < |queue| ==> dist[queue[i]] <= dist[queue[0]] + 1)
  }

  /** A visited file is the target or was reached by an edge from a file one step nearer. */
  ghost predicate TreeAt(files: Files, excludes: set<string>, target: string, s: Search, dist: map<string, nat>,
                         done: set<string>, cur: seq<string>, x: string)
    requires Keys(s, dist) && x in s.vis
  {
    x !in excludes &&
    match s.wherefrom[x]
    case None => x == target && dist[x] == 0
    case Some(y) => y in s.vis && (y in done || y in cur) && dist[x] == dist[y] + 1 && x in Out(files, y)
  }

  ghost predicate Tree(files: Files, excludes: set<string>, target: string, s: Search, dist: map<string, nat>,
                       done: set<string>, cur: seq<string>)
    requires Keys(s, dist)
  {
    && (target !in excludes ==> target in s.vis && s.wherefrom[target] == None)
    && forall x :: x in s.vis ==> TreeAt(files, excludes, target, s, dist, done, cur, x)
  }

  ghost predicate Followed(excludes: set<string>, s: Search, dist: map<string, nat>, y: string, edges: seq<string>)
    requires Keys(s, dist) && y in s.vis
  {
    forall z :: z in edges ==> z in excludes || (z in s.vis && dist[z] <= dist[y] + 1)
  }

  ghost predicate DoneAt(files: Files, excludes: set<string>, s: Search, dist: map<string, nat>, y: string)
    requires Keys(s, dist)
  {
    y in s.vis && y in files && s.depmap[y] == Out(files, y) && Followed(excludes, s, dist, y, Out(files, y))
  }

  /** Every followed edge leads to an excluded or a visited file, and is recorded. */
  ghost predicate Closed(files: Files, excludes: set<string>, s: Search, dist: map<string, nat>,
                         done: set<string>, cur: seq<string>, seen: seq<string>)
    requires Keys(s, dist)
  {
    && (forall y :: y in done ==> DoneAt(files, excludes, s, dist, y))
    && (forall y :: y in cur ==> y in s.vis && s.depmap[y] == seen && Followed(excludes, s, dist, y, seen))
    && (forall x :: x in s.q ==> x in s.vis && s.depmap[x] == [])
  }

  /** t and dist' are s and dist after following the edge from now to x. */
  ghost predicate FollowedTo(excludes: set<string>, s: Search, dist: map<string, nat>, now: string, x: string,
                             t: Search, dist': map<string, nat>)
    requires Keys(s, dist) && now in s.vis
  {
    var unseen := x !in excludes && x !in s.vis;
    var s' := if unseen then Enqueue(s, x, Some(now)) else s;
    t == s'.(depmap := s'.depmap[now := s.depmap[now] + [x]])
      && dist' == if unseen then dist[x := dist[now] + 1] else dist
  }

  /** Following one edge of the file being processed keeps the invariant. */
  lemma FollowEdge(files: Files, excludes: set<string>, target: string, s: Search, dist: map<string, nat>,
                   done: set<string>, now: string, seen: seq<string>, x: string, t: Search, dist': map<string, nat>)
    requires Inv(files, excludes, target, s, dist, done, [now], seen)
    requires x in Out(files, now) && now in s.vis && FollowedTo(excludes, s, dist, now, x, t, dist')
    ensures Inv(files, excludes, target, t, dist', done, [now], seen + [x])
  {
    hide Out, Layers, Tree, Closed;
    FollowLayers(s, dist, done, now, excludes, x, t, dist');
    FollowTree(files, excludes, target, s, dist, done, now, x, t, dist');
    FollowClosed(files, excludes, s, dist, done, now, seen, x, t, dist');
  }

  lemma FollowLayers(s: Search, dist: map<string, nat>, done: set<string>, now: string, excludes: set<string>,
                     x: string, t: Search, dist': map<string, nat>)
    requires Keys(s, dist) && Layers(s, dist, done, [now] + s.q)
    requires now in s.vis && FollowedTo(excludes, s, dist, now, x, t, dist')
    ensures Keys(t, dist') && Layers(t, dist', done, [now] + t.q)
  {
    hide Ordered;
    var queue := [now] + s.q;
    assert queue[0] == now;
    if x !in excludes && x !in s.vis {
      assert [now] + t.q == queue + [x];
      OrderedGrows(dist, queue, x);
      LayersGrow(s, dist, done, queue, x, t, dist');
    }
  }

  lemma LayersGrow(s: Search, dist: map<string, nat>, done: set<string>, queue: seq<string>, x: string,
                   t: Search, dist': map<string, nat>)
    requires Keys(s, dist) && Layers(s, dist, done, queue) && queue != [] && x !in s.vis
    requires t.vis == s.vis + {x} && dist' == dist[x := dist[queue[0]] + 1] && Ordered(dist', queue + [x])
    requires Keys(t, dist')
    ensures Layers(t, dist', done, queue + [x])
  {
    hide Ordered;
    assert forall y :: y in queue + [x] <==> y in queue || y == x;
    assert (queue + [x])[0] == queue[0];
  }

  lemma OrderedGrows(dist: map<string, nat>, queue: seq<string>, x: string)
    requires queue != [] && x !in dist && (forall y :: y in queue ==> y in dist) && Ordered(dist, queue)
    ensures Ordered(dist[x := dist[queue[0]] + 1], queue + [x])
  {
    assert forall i :: 0 <= i < |queue| ==> queue[i] in queue;
  }

  lemma FollowTree(files: Files, excludes: set<string>, target: string, s: Search, dist: map<string, nat>,
                   done: set<string>, now: string, x: string, t: Search, dist': map<string, nat>)
    requires Keys(s, dist) && Tree(files, excludes, target, s, dist, done, [now])
    requires x in Out(files, now) && now in s.vis && FollowedTo(excludes, s, dist, now, x, t, dist')
    ensures Keys(t, dist') && Tree(files, excludes, target, t, dist', done, [now])
  {
    hide Out, Tree, TreeAt;
    TreeParts(files, excludes, target, s, dist, done, [now]);
    forall z | z in t.vis
      ensures TreeAt(files, excludes, target, t, dist', done, [now], z)
    {
      TreeStays(files, excludes, target, s, dist, done, now, x, t, dist', z);
    }
    TreeWhole(files, excludes, target, t, dist', done, [now]);
  }

  lemma TreeStays(files: Files, excludes: set<string>, target: string, s: Search, dist: map<string, nat>,
                  done: set<string>, now: string, x: string, t: Search, dist': map<string, nat>, z: string)
    requires Keys(s, dist) && now in s.vis && x in Out(files, now) && FollowedTo(excludes, s, dist, now, x, t, dist')
    requires z in t.vis && (z in s.vis ==> TreeAt(files, excludes, target, s, dist, done, [now], z))
    ensures Keys(t, dist') && TreeAt(files, excludes, target, t, dist', done, [now], z)
  {
    hide Out;
  }

  lemma TreeParts(files: Files, excludes: set<string>, target: string, s: Search, dist: map<string, nat>,
                  done: set<string>, cur: seq<string>)
    requires Keys(s, dist) && Tree(files, excludes, target, s, dist, done, cur)
    ensures target !in excludes ==> target in s.vis && s.wherefrom[target] == None
    ensures forall x :: x in s.vis ==> TreeAt(files, excludes, target, s, dist, done, cur, x)
  {
  }

  lemma TreeWhole(files: Files, excludes: set<string>, target: string, s: Search, dist: map<string, nat>,
                  done: set<string>, cur: seq<string>)
    requires Keys(s, dist)
    requires target !in excludes ==> target in s.vis && s.wherefrom[target] == None
    requires forall x :: x in s.vis ==> TreeAt(files, excludes, target, s, dist, done, cur, x)
    ensures Tree(files, excludes, target, s, dist, done, cur)
  {
  }

  lemma FollowClosed(files: Files, excludes: set<string>, s: Search, dist: map<string, nat>,
                     done: set<string>, now: string, seen: seq<string>, x: string, t: Search, dist': map<string, nat>)
    requires Keys(s, dist) && Layers(s, dist, done, [now] + s.q) && Closed(files, excludes, s, dist, done, [now], seen)
    requires now in s.vis && FollowedTo(excludes, s, dist, now, x, t, dist')
    ensures Keys(t, dist') && Closed(files, excludes, t, dist', done, [now], seen + [x])
  {
    hide Out, DoneAt, Followed;
    assert ([now] + s.q)[0] == now && now !in done && now in [now];
    assert forall i :: 0 <= i < |s.q| ==> ([now] + s.q)[i + 1] == s.q[i];
    assert now !in s.q;
    forall y | y in done
      ensures DoneAt(files, excludes, t, dist', y)
    {
      DoneStays(files, excludes, s, dist, now, x, t, dist', y);
    }
    FollowedGrows(excludes, s, dist, now, seen, x, t, dist');
  }

  lemma DoneStays(files: Files, excludes: set<string>, s: Search, dist: map<string, nat>, now: string, x: string,
                  t: Search, dist': map<string, nat>, y: string)
    requires Keys(s, dist) && DoneAt(files, excludes, s, dist, y) && y != now
    requires now in s.vis && FollowedTo(excludes, s, dist, now, x, t, dist')
    ensures Keys(t, dist') && DoneAt(files, excludes, t, dist', y)
  {
    hide Out;
  }

  lemma FollowedGrows(excludes: set<string>, s: Search, dist: map<string, nat>, now: string, seen: seq<string>,
                      x: string, t: Search, dist': map<string, nat>)
    requires Keys(s, dist) && now in s.vis && Followed(excludes, s, dist, now, seen)
    requires FollowedTo(excludes, s, dist, now, x, t, dist')
    requires x in s.vis ==> dist[x] <= dist[now] + 1
    ensures Keys(t, dist') && now in t.vis && Followed(excludes, t, dist', now, seen + [x])
  {
  }

  lemma NextFile(files: Files, excludes: set<string>, target: string, s: Search, dist: map<string, nat>,
                 done: set<string>)
    requires Inv(files, excludes, target, s, dist, done, [], []) && s.q != []
    ensures Inv(files, excludes, target, s.(q := s.q[1..]), dist, done, [s.q[0]], [])
    ensures s.q[0] !in done && s.q[0] in s.vis
  {
    hide Out, Followed, Ordered, DoneAt, Tree, TreeAt, Closed;
    var t := s.(q := s.q[1..]);
    assert [s.q[0]] + t.q == s.q && [] + s.q == s.q;
    TreeMoves(files, excludes, target, s, dist, done, [], t, done, [s.q[0]]);
    NextClosed(files, excludes, s, dist, done, t);
  }

  lemma NextClosed(files: Files, excludes: set<string>, s: Search, dist: map<string, nat>, done: set<string>, t: Search)
    requires Keys(s, dist) && Closed(files, excludes, s, dist, done, [], []) && s.q != [] && t == s.(q := s.q[1..])
    ensures Keys(t, dist) && Closed(files, excludes, t, dist, done, [s.q[0]], [])
  {
    hide Out, DoneAt;
    assert s.q[0] in s.q && forall x :: x in t.q ==> x in s.q;
    forall y | y in done
      ensures DoneAt(files, excludes, t, dist, y)
    {
      DoneMoves(files, excludes, s, dist, y, t);
    }
  }

  /** Only the queue and the split between processed and current files differ. */
  ghost predicate SameMaps(s: Search, t: Search) {
    t.vis == s.vis && t.depmap == s.depmap && t.wherefrom == s.wherefrom
  }

  lemma TreeMoves(files: Files, excludes: set<string>, target: string, s: Search, dist: map<string, nat>,
                  done: set<string>, cur: seq<string>, t: Search, done': set<string>, cur': seq<string>)
    requires Keys(s, dist) && Tree(files, excludes, target, s, dist, done, cur) && SameMaps(s, t)
    requires forall y :: y in done || y in cur ==> y in done' || y in cur'
    ensures Keys(t, dist) && Tree(files, excludes, target, t, dist, done', cur')
  {
    hide Out;
  }

  lemma DoneMoves(files: Files, excludes: set<string>, s: Search, dist: map<string, nat>, y: string, t: Search)
    requires Keys(s, dist) && DoneAt(files, excludes, s, dist, y) && SameMaps(s, t)
    ensures Keys(t, dist) && DoneAt(files, excludes, t, dist, y)
  {
    hide Out;
  }

  lemma FileDone(files: Files, excludes: set<string>, target: string, s: Search, dist: map<string, nat>,
                 done: set<string>, now: string)
    requires Inv(files, excludes, target, s, dist, done, [now], Out(files, now)) && now in files
    ensures Inv(files, excludes, target, s, dist, done + {now}, [], [])
  {
    hide Out, Tree, TreeAt, Layers, Ordered, Followed;
    assert now in [now];
    TreeMoves(files, excludes, target, s, dist, done, [now], s, done + {now}, []);
    DequeueLayers(s, dist, done, now);
    assert [] + s.q == s.q;
  }

  lemma DequeueLayers(s: Search, dist: map<string, nat>, done: set<string>, now: string)
    requires Keys(s, dist) && Layers(s, dist, done, [now] + s.q)
    ensures Layers(s, dist, done + {now}, s.q)
  {
    hide Ordered;
    var queue := [now] + s.q;
    assert queue[0] == now && forall i :: 0 <= i < |s.q| ==> s.q[i] == queue[i + 1];
    assert forall x :: x in queue <==> x == now || x in s.q;
    DequeueOrdered(dist, s.q, now);
  }

  lemma DequeueOrdered(dist: map<string, nat>, q: seq<string>, now: string)
    requires forall x :: x in [now] + q ==> x in dist
    requires Ordered(dist, [now] + q)
    ensures forall x :: x in q ==> x in dist
    ensures Ordered(dist, q) && now !in q && (q != [] ==> dist[now] <= dist[q[0]])
  {
    var queue := [now] + q;
    assert queue[0] == now && forall i :: 0 <= i < |q| ==> q[i] == queue[i + 1];
    forall x | x in q ensures x in dist { assert x in queue; }
  }

  // ---- What the finished search means ----

  ghost predicate Finished(files: Files, excludes: set<string>, target: string, s: Search, dist: map<string, nat>) {
    Inv(files, excludes, target, s, dist, s.vis, [], []) && s.q == []
  }

  /** Every walk ends at a visited file no nearer than its recorded distance. */
  lemma {:induction false} WalksAreVisited(files: Files, excludes: set<string>, target: string, s: Search,
                                           dist: map<string, nat>, p: seq<string>)
    requires Finished(files, excludes, target, s, dist) && Walk(files, excludes, target, p)
    ensures p[|p| - 1] in s.vis && p[|p| - 1] in dist && dist[p[|p| - 1]] < |p|
  {
    hide Out, Inv;
    var n := |p| - 1;
    if n == 0 {
      TargetIsVisited(files, excludes, target, s, dist);
    } else {
      assert Walk(files, excludes, target, p[..n]);
      WalksAreVisited(files, excludes, target, s, dist, p[..n]);
      EdgeIsVisited(files, excludes, target, s, dist, p[n - 1], p[n]);
    }
  }

  lemma TargetIsVisited(files: Files, excludes: set<string>, target: string, s: Search, dist: map<string, nat>)
    requires Finished(files, excludes, target, s, dist) && target !in excludes
    ensures target in s.vis && target in dist && dist[target] == 0
  {
    hide Out, Layers, Closed;
  }

  lemma EdgeIsVisited(files: Files, excludes: set<string>, target: string, s: Search, dist: map<string, nat>,
                      y: string, x: string)
    requires Finished(files, excludes, target, s, dist) && y in s.vis && x in Out(files, y) && x !in excludes
    ensures x in s.vis && x in dist && y in dist && dist[x] <= dist[y] + 1
  {
    hide Out, Layers, Tree;
  }

  /** Following `wherefrom` back gives a walk as long as the recorded distance says. */
  lemma {:induction false} TrailTo(files: Files, excludes: set<string>, target: string, s: Search,
                                   dist: map<string, nat>, x: string)
    returns (p: seq<string>)
    requires Finished(files, excludes, target, s, dist) && x in s.vis
    ensures Trail(s.wherefrom, p, x) && WalkTo(files, excludes, target, p, x) && |p| == dist[x] + 1
    decreases dist[x]
  {
    hide Out, Layers, Closed;
    match s.wherefrom[x] {
      case None => p := [x];
      case Some(y) =>
        p := TrailTo(files, excludes, target, s, dist, y);
        p := p + [x];
    }
  }

  lemma {:induction false} TrailIsUnique(wherefrom: map<string, Option<string>>, p: seq<string>, q: seq<string>,
                                         x: string)
    requires Trail(wherefrom, p, x) && Trail(wherefrom, q, x)
    ensures p == q
    decreases |p|
  {
    var m, n := |p| - 1, |q| - 1;
    assert m > 0 ==> wherefrom[p[m]] == Some(p[m - 1]);
    assert n > 0 ==> wherefrom[q[n]] == Some(q[n - 1]);
    if m > 0 && n > 0 {
      assert p[m - 1] == q[n - 1];
      TrailIsUnique(wherefrom, p[..m], q[..n], p[m - 1]);
    }
    assert p == p[..m] + [x] && q == q[..n] + [x];
  }

  /** The answer of a search: its keys are the reachable files, the recorded edges are theirs, all
      of them exist, and following `wherefrom` back from any of them is a shortest walk. */
  ghost predicate Answers(files: Files, excludes: set<string>, target: string,
                          depmap: map<string, seq<string>>, wherefrom: map<string, Option<string>>)
  {
    && (forall x :: x in depmap <==> Reachable(files, excludes, target, x))
    && wherefrom.Keys == depmap.Keys
    && (forall x :: x in depmap ==> x in files && depmap[x] == Out(files, x))
    && (forall x :: x in depmap ==> exists p :: Trail(wherefrom, p, x) && Shortest(files, excludes, target, p, x))
    && (forall x, p :: x in depmap && Trail(wherefrom, p, x) ==> Shortest(files, excludes, target, p, x))
  }

  lemma AnswerKeys(files: Files, excludes: set<string>, target: string,
                   depmap: map<string, seq<string>>, wherefrom: map<string, Option<string>>)
    requires Answers(files, excludes, target, depmap, wherefrom)
    ensures forall x :: x in depmap <==> Reachable(files, excludes, target, x)
    ensures forall x :: x in depmap ==> x in files && depmap[x] == Out(files, x)
  {
  }

  lemma SearchAnswers(files: Files, excludes: set<string>, target: string, s: Search, dist: map<string, nat>)
    requires Finished(files, excludes, target, s, dist)
    ensures Answers(files, excludes, target, s.depmap, s.wherefrom)
  {
    forall x
      ensures x in s.depmap <==> Reachable(files, excludes, target, x)
      ensures x in s.depmap ==> x in files && s.depmap[x] == Out(files, x)
      ensures x in s.depmap ==> exists p :: Trail(s.wherefrom, p, x) && Shortest(files, excludes, target, p, x)
    {
      VisitedIsReachable(files, excludes, target, s, dist, x);
    }
    forall x, q | x in s.depmap && Trail(s.wherefrom, q, x)
      ensures Shortest(files, excludes, target, q, x)
    {
      var p :| Trail(s.wherefrom, p, x) && Shortest(files, excludes, target, p, x);
      TrailIsUnique(s.wherefrom, p, q, x);
    }
  }

  lemma VisitedIsReachable(files: Files, excludes: set<string>, target: string, s: Search, dist: map<string, nat>,
                           x: string)
    requires Finished(files, excludes, target, s, dist)
    ensures x in s.vis <==> Reachable(files, excludes, target, x)
    ensures x in s.vis ==> x in s.depmap && x in files && s.depmap[x] == Out(files, x)
    ensures x in s.vis ==> exists p :: Trail(s.wherefrom, p, x) && Shortest(files, excludes, target, p, x)
  {
    hide Out, Layers, Tree, Walk;
    if Reachable(files, excludes, target, x) {
      var p :| WalkTo(files, excludes, target, p, x);
      WalksAreVisited(files, excludes, target, s, dist, p);
    }
    if x in s.vis {
      var p := TrailTo(files, excludes, target, s, dist, x);
      forall q | WalkTo(files, excludes, target, q, x)
        ensures |p| <= |q|
      {
        WalksAreVisited(files, excludes, target, s, dist, q);
      }
    }
  }

  /** Following `wherefrom` back at any moment shows that a visited file is reachable. */
  lemma {:induction false} VisitedSoFar(files: Files, excludes: set<string>, target: string, s: Search,
                                        dist: map<string, nat>, done: set<string>, cur: seq<string>,
                                        seen: seq<string>, x: string)
    returns (p: seq<string>)
    requires Inv(files, excludes, target, s, dist, done, cur, seen) && x in s.vis
    ensures WalkTo(files, excludes, target, p, x)
    decreases dist[x]
  {
    hide Out, Layers, Closed, Tree;
    TreeParts(files, excludes, target, s, dist, done, cur);
    match s.wherefrom[x] {
      case None => p := [x];
      case Some(y) =>
        p := VisitedSoFar(files, excludes, target, s, dist, done, cur, seen, y);
        p := p + [x];
    }
  }

  lemma CurrentIsVisited(files: Files, excludes: set<string>, target: string, s: Search, dist: map<string, nat>,
                         done: set<string>, now: string, seen: seq<string>)
    requires Inv(files, excludes, target, s, dist, done, [now], seen)
    ensures now in s.vis && now in s.depmap && now in dist && Keys(s, dist)
  {
    assert ([now] + s.q)[0] == now;
  }

  /** The search's result, or the include whose file cannot be opened. */
  datatype Found =
    | Found(depmap: map<string, seq<string>>, wherefrom: map<string, Option<string>>)
    | Missing(file: string)

  /** The exclusions that were hit: the target itself or the end of an edge of a reached file. */
  ghost predicate Hit(files: Files, target: string, done: set<string>, seen: seq<string>, x: string) {
    x == target || x in seen || exists y :: y in done && x in Out(files, y)
  }

  // ---- What a header cuts off ----

  /** Node difference, edge difference and the files lost when a header and its .cc are excluded. */
  datatype Critical = Critical(nodes: int, edges: int, cut: set<string>)

  function WithoutHeader(excludes: set<string>, key: string): set<string>
    requires IsHeader(key)
  {
    excludes + {key, Sibling(key, "cc")}
  }

  /** The sum of the numbers of edges out of some files. */
  ghost function EdgeSum(files: Files, s: set<string>): nat {
    if s == {} then 0
    else
      var x :| x in s;
      |Out(files, x)| + EdgeSum(files, s - {x})
  }

  lemma {:induction false} EdgeSumWithout(files: Files, s: set<string>, y: string)
    requires y in s
    ensures EdgeSum(files, s) == |Out(files, y)| + EdgeSum(files, s - {y})
    decreases |s|
  {
    hide Out;
    var x :| x in s && EdgeSum(files, s) == |Out(files, x)| + EdgeSum(files, s - {x});
    if x != y {
      EdgeSumWithout(files, s - {x}, y);
      EdgeSumWithout(files, s - {y}, x);
      assert s - {x} - {y} == s - {y} - {x};
    }
  }

  lemma {:induction false} EdgeSumSplit(files: Files, s: set<string>, t: set<string>)
    requires t <= s
    ensures EdgeSum(files, s) == EdgeSum(files, t) + EdgeSum(files, s - t)
    decreases |t|
  {
    hide Out;
    if t == {} {
      assert s - t == s;
    } else {
      var y :| y in t;
      EdgeSumWithout(files, s, y);
      EdgeSumWithout(files, t, y);
      EdgeSumSplit(files, s - {y}, t - {y});
      assert s - {y} - (t - {y}) == s - t;
    }
  }

  /** Every walk to x avoiding the exclusions passes through the header or its .cc sibling. */
  ghost predicate Dominated(files: Files, excludes: set<string>, target: string, key: string, x: string)
    requires IsHeader(key)
  {
    forall p :: WalkTo(files, excludes, target, p, x) ==> key in p || Sibling(key, "cc") in p
  }

  /** Excluding the header makes unreachable exactly the files it dominates. */
  lemma CutIsDomination(files: Files, excludes: set<string>, target: string, key: string, x: string)
    requires IsHeader(key)
    ensures Reachable(files, WithoutHeader(excludes, key), target, x) <==>
      Reachable(files, excludes, target, x) && !Dominated(files, excludes, target, key, x)
  {
    hide Out;
    var cut := WithoutHeader(excludes, key);
    if Reachable(files, cut, target, x) {
      var p :| WalkTo(files, cut, target, p, x);
      assert WalkTo(files, excludes, target, p, x);
      assert key !in p && Sibling(key, "cc") !in p;
    }
    if Reachable(files, excludes, target, x) && !Dominated(files, excludes, target, key, x) {
      var p :| WalkTo(files, excludes, target, p, x) && key !in p && Sibling(key, "cc") !in p;
      assert forall i :: 0 <= i < |p| ==> p[i] in p;
      assert WalkTo(files, cut, target, p, x);
    }
  }

  /** What the analysis reports for one header. */
  ghost predicate IsCritical(files: Files, excludes: set<string>, target: string, key: string, c: Critical)
    requires IsHeader(key)
  {
    && (forall x :: x in c.cut <==> Reachable(files, excludes, target, x) && Dominated(files, excludes, target, key, x))
    && c.nodes == |c.cut| && c.edges == EdgeSum(files, c.cut)
  }

  lemma DifferenceIsCritical(files: Files, excludes: set<string>, target: string, key: string, all: set<string>,
                             left: set<string>)
    requires IsHeader(key)
    requires forall x :: x in all <==> Reachable(files, excludes, target, x)
    requires forall x :: x in left <==> Reachable(files, WithoutHeader(excludes, key), target, x)
    ensures left <= all
    ensures IsCritical(files, excludes, target, key,
      Critical(|all| - |left|, EdgeSum(files, all) - EdgeSum(files, left), all - left))
  {
    hide Reachable, Dominated, EdgeSum;
    forall x
      ensures x in left <==> x in all && !Dominated(files, excludes, target, key, x)
    {
      CutIsDomination(files, excludes, target, key, x);
    }
    EdgeSumSplit(files, all, left);
    assert all == left + (all - left);
  }

  class DependencyTree {
    const files: Files
    var excludes: set<string>
    var excludesUsed: set<string>

    constructor (files: Files, excludes: set<string>)
      ensures this.files == files && this.excludes == excludes && excludesUsed == {}
    {
      this.files := files;
      this.excludes := excludes;
      excludesUsed := {};
    }

    /** enq, for an edge out of `now`, and the recording of the edge. */
    method Follow(s: Search, ghost dist: map<string, nat>, ghost target: string, ghost done: set<string>, now: string,
                  ghost seen: seq<string>, x: string)
      returns (t: Search, ghost dist': map<string, nat>)
      requires Inv(files, excludes, target, s, dist, done, [now], seen) && x in Out(files, now)
      modifies `excludesUsed
      ensures Inv(files, excludes, target, t, dist', done, [now], seen + [x])
      ensures excludesUsed == old(excludesUsed) + if x in excludes then {x} else {}
    {
      hide Inv, Out;
      CurrentIsVisited(files, excludes, target, s, dist, done, now, seen);
      t, dist' := s, dist;
      if x in excludes {
        excludesUsed := excludesUsed + {x};
      } else {
        dist' := if x in s.vis then dist else dist[x := dist[now] + 1];
        t := Enqueue(s, x, Some(now));
      }
      t := t.(depmap := t.depmap[now := t.depmap[now] + [x]]);
      FollowEdge(files, excludes, target, s, dist, done, now, seen, x, t, dist');
    }

    /** get_dependencies. */
    method GetDependencies(target: string) returns (r: Found)
      modifies `excludesUsed
      ensures match r
        case Found(depmap, wherefrom) =>
          && Answers(files, excludes, target, depmap, wherefrom)
          && (forall x :: x in excludesUsed <==>
                x in old(excludesUsed) || (x in excludes && Hit(files, target, depmap.Keys, [], x)))
        case Missing(f) => f !in files && Reachable(files, excludes, target, f)
    {
      hide Out, Inv;
      var s := START;
      ghost var dist: map<string, nat> := map[];
      ghost var done: set<string> := {};
      if target in excludes {
        excludesUsed := excludesUsed + {target};
      } else {
        s := Enqueue(s, target, None);
        dist := map[target := 0];
      }
      StartInv(target, s, dist);
      while s.q != []
        invariant Inv(files, excludes, target, s, dist, done, [], []) && done <= files.Keys
        invariant forall x :: x in excludesUsed <==>
          x in old(excludesUsed) || (x in excludes && Hit(files, target, done, [], x))
        decreases files.Keys - done
      {
        NextFile(files, excludes, target, s, dist, done);
        var now := s.q[0];
        s := s.(q := s.q[1..]);
        s, dist := FollowAll(s, dist, target, done, now);
        if now !in files {
          CurrentIsVisited(files, excludes, target, s, dist, done, now, Out(files, now));
          ghost var p := VisitedSoFar(files, excludes, target, s, dist, done, [now], Out(files, now), now);
          return Missing(now);
        }
        FileDone(files, excludes, target, s, dist, done, now);
        HitsGrow(target, done, now);
        done := done + {now};
      }
      NothingLeft(target, s, dist, done);
      SearchAnswers(files, excludes, target, s, dist);
      r := Found(s.depmap, s.wherefrom);
    }

    /** The body of the search loop: both siblings, then the includes, one edge at a time. A file
        that does not exist has no include edges here and is reported by the caller. */
    method FollowAll(s0: Search, ghost dist0: map<string, nat>, ghost target: string, ghost done: set<string>,
                     now: string)
      returns (s: Search, ghost dist: map<string, nat>)
      requires Inv(files, excludes, target, s0, dist0, done, [now], [])
      modifies `excludesUsed
      ensures Inv(files, excludes, target, s, dist, done, [now], Out(files, now))
      ensures forall x :: x in excludesUsed <==> x in old(excludesUsed) || (x in excludes && x in Out(files, now))
    {
      hide Inv, Includes, SiblingEdge;
      ghost var seen;
      s, dist, seen := FollowSiblings(s0, dist0, target, done, now);
      ghost var siblings := seen;
      var includes := Includes(files, now);
      var i := 0;
      while i < |includes|
        invariant 0 <= i <= |includes| && seen == siblings + includes[..i]
        invariant Inv(files, excludes, target, s, dist, done, [now], seen)
        invariant forall x :: x in excludesUsed <==> x in old(excludesUsed) || (x in excludes && x in seen)
      {
        assert includes[i] in Out(files, now);
        s, dist := Follow(s, dist, target, done, now, seen, includes[i]);
        assert includes[..i + 1] == includes[..i] + [includes[i]];
        seen := seen + [includes[i]];
        i := i + 1;
      }
      assert includes[..i] == includes;
    }

    /** The siblings of a header that exist, in this order. */
    method FollowSiblings(s0: Search, ghost dist0: map<string, nat>, ghost target: string, ghost done: set<string>,
                          now: string)
      returns (s: Search, ghost dist: map<string, nat>, ghost seen: seq<string>)
      requires Inv(files, excludes, target, s0, dist0, done, [now], [])
      modifies `excludesUsed
      ensures seen == SiblingEdge(files, now, "cc") + SiblingEdge(files, now, "mm")
      ensures Inv(files, excludes, target, s, dist, done, [now], seen)
      ensures forall x :: x in excludesUsed <==> x in old(excludesUsed) || (x in excludes && x in seen)
    {
      hide Inv, Includes;
      s, dist := s0, dist0;
      seen := [];
      if IsHeader(now) && Sibling(now, "cc") in files {
        s, dist := Follow(s, dist, target, done, now, seen, Sibling(now, "cc"));
        seen := seen + [Sibling(now, "cc")];
      }
      assert seen == SiblingEdge(files, now, "cc");
      if IsHeader(now) && Sibling(now, "mm") in files {
        s, dist := Follow(s, dist, target, done, now, seen, Sibling(now, "mm"));
        seen := seen + [Sibling(now, "mm")];
      }
      assert seen == SiblingEdge(files, now, "cc") + SiblingEdge(files, now, "mm");
    }

    lemma StartInv(target: string, s: Search, dist: map<string, nat>)
      requires s == if target in excludes then START else Enqueue(START, target, None)
      requires dist == if target in excludes then map[] else map[target := 0]
      ensures Inv(files, excludes, target, s, dist, {}, [], [])
    {
      assert [] + s.q == s.q;
    }

    lemma HitsGrow(target: string, done: set<string>, now: string)
      ensures forall x :: Hit(files, target, done + {now}, [], x) <==>
        Hit(files, target, done, [], x) || x in Out(files, now)
    {
    }

    lemma NothingLeft(target: string, s: Search, dist: map<string, nat>, done: set<string>)
      requires Inv(files, excludes, target, s, dist, done, [], []) && s.q == []
      ensures done == s.vis == s.depmap.Keys && Finished(files, excludes, target, s, dist)
    {
      assert forall x :: x in s.vis <==> x in done;
    }

    /** `sum(map(len, depmap.values()))` */
    method CountEdges(depmap: map<string, seq<string>>) returns (m: nat)
      requires forall x :: x in depmap ==> depmap[x] == Out(files, x)
      ensures m == EdgeSum(files, depmap.Keys)
    {
      hide Out, EdgeSum;
      m := 0;
      var left := depmap.Keys;
      while left != {}
        invariant left <= depmap.Keys && m + EdgeSum(files, left) == EdgeSum(files, depmap.Keys)
        decreases left
      {
        var x :| x in left;
        EdgeSumWithout(files, left, x);
        m := m + |depmap[x]|;
        left := left - {x};
      }
      NoEdges();
    }

    lemma NoEdges()
      ensures EdgeSum(files, {}) == 0
    {
    }

    /** With more exclusions no new file can be missing. */
    lemma StillFound(ex: set<string>, target: string, key: string, all: set<string>)
      requires IsHeader(key) && forall x :: x in all <==> Reachable(files, ex, target, x)
      requires forall x :: x in all ==> x in files
      ensures forall f :: Reachable(files, WithoutHeader(ex, key), target, f) ==> f in files
    {
      forall f | Reachable(files, WithoutHeader(ex, key), target, f)
        ensures f in files
      {
        CutIsDomination(files, ex, target, key, f);
      }
    }

    /** The search without one header, compared with the full one. */
    method CutOff(ex: set<string>, target: string, key: string, depmap: map<string, seq<string>>, m: nat)
      returns (c: Critical)
      requires IsHeader(key) && m == EdgeSum(files, depmap.Keys)
      requires forall x :: x in depmap <==> Reachable(files, ex, target, x)
      requires forall x :: x in depmap ==> x in files
      modifies this
      ensures excludes == WithoutHeader(ex, key) && IsCritical(files, ex, target, key, c)
    {
      hide Out, Reachable, IsCritical, EdgeSum, Answers, WithoutHeader, Hit;
      excludes := WithoutHeader(ex, key);
      StillFound(ex, target, key, depmap.Keys);
      var found := GetDependencies(target);
      var cut := found.depmap;
      AnswerKeys(files, excludes, target, cut, found.wherefrom);
      var m' := CountEdges(cut);
      DifferenceIsCritical(files, ex, target, key, depmap.Keys, cut.Keys);
      c := Critical(|depmap| - |cut|, m - m', depmap.Keys - cut.Keys);
      assert |depmap| == |depmap.Keys| && |cut| == |cut.Keys|;
    }

    /** critical_node. None stands for the failure to open a file. The exclusions of the last header
        examined stay behind in the object. */
    method CriticalNode(target: string) returns (results: Option<seq<Row>>)
      modifies this
      ensures results.None? ==> exists f :: f !in files && Reachable(files, old(excludes), target, f)
      ensures results.Some? ==>
        && Ascending(results.value) && OneEach(results.value)
        && (forall key :: HasRow(results.value, key) <==> IsHeader(key) && Reachable(files, old(excludes), target, key))
        && (forall row :: row in results.value ==>
              IsHeader(row.key) && IsCritical(files, old(excludes), target, row.key, row.critical))
        && (results.value == [] ==> excludes == old(excludes))
        && (results.value != [] ==>
              exists row ::
                row in results.value && IsHeader(row.key) && excludes == WithoutHeader(old(excludes), row.key))
    {
      hide Out, Reachable, IsCritical, EdgeSum, Answers, WithoutHeader, Hit, InOrder, Sorted;
      var ex := excludes;
      var found := GetDependencies(target);
      if found.Missing? {
        return None;
      }
      var depmap := found.depmap;
      AnswerKeys(files, ex, target, depmap, found.wherefrom);
      var m := CountEdges(depmap);
      var keys := depmap.Keys;
      var rows: seq<Row> := [];
      while keys != {}
        invariant keys <= depmap.Keys && OneEach(rows)
        invariant forall key :: HasRow(rows, key) <==> key in depmap && key !in keys && IsHeader(key)
        invariant forall row :: row in rows ==>
          IsHeader(row.key) && IsCritical(files, ex, target, row.key, row.critical)
        invariant rows == [] ==> excludes == ex
        invariant rows != [] ==>
          exists row :: row in rows && IsHeader(row.key) && excludes == WithoutHeader(ex, row.key)
        decreases keys
      {
        var key :| key in keys;
        keys := keys - {key};
        if IsHeader(key) {
          var c := CutOff(ex, target, key, depmap, m);
          AppendRow(rows, Row(c, key));
          rows := rows + [Row(c, key)];
        }
      }
      SortedRows(rows);
      OrderedAscend(Sorted(rows));
      results := Some(Sorted(rows));
    }
  }

  // ---- The results in order ----

  datatype Row = Row(critical: Critical, key: string)

  /** The order of the result tuples; headers differ, so the sets are never compared. */
  predicate RowLess(a: Row, b: Row) {
    var c, d := a.critical, b.critical;
    c.nodes < d.nodes || (c.nodes == d.nodes &&
      (c.edges < d.edges || (c.edges == d.edges && JsonValue.TextLess(a.key, b.key))))
  }

  predicate InOrder(rows: seq<Row>) {
    forall i, j :: 0 <= i < j < |rows| ==> RowLess(rows[i], rows[j])
  }

  /** The node differences never decrease, nor the edge differences among equal node differences,
      and where both are equal the names ascend by the first character in which they differ. */
  ghost predicate Ascending(rows: seq<Row>) {
    forall i, j :: 0 <= i < j < |rows| ==>
      var c, d := rows[i].critical, rows[j].critical;
      && c.nodes <= d.nodes
      && (c.nodes == d.nodes ==> c.edges <= d.edges)
      && (c.nodes == d.nodes && c.edges == d.edges ==> exists k :: JsonValue.DiffersAt(rows[i].key, rows[j].key, k))
  }

  lemma OrderedAscend(rows: seq<Row>)
    requires InOrder(rows)
    ensures Ascending(rows)
  {
    forall i, j | 0 <= i < j < |rows|
      ensures RowLess(rows[i], rows[j])
      ensures JsonValue.TextLess(rows[i].key, rows[j].key) <==>
        exists k :: JsonValue.DiffersAt(rows[i].key, rows[j].key, k)
    {
      JsonValue.TextLessIsDictionary(rows[i].key, rows[j].key);
    }
  }

  /** No header has two rows. */
  predicate OneEach(rows: seq<Row>) {
    forall i, j :: 0 <= i < j < |rows| ==> rows[i].key != rows[j].key
  }

  predicate HasRow(rows: seq<Row>, key: string) {
    exists i :: 0 <= i < |rows| && rows[i].key == key
  }

  lemma AppendRow(rows: seq<Row>, r: Row)
    ensures forall key :: HasRow(rows + [r], key) <==> HasRow(rows, key) || key == r.key
    ensures OneEach(rows) && !HasRow(rows, r.key) ==> OneEach(rows + [r])
    ensures r in rows + [r]
  {
    var all := rows + [r];
    assert all[|rows|] == r;
    forall key ensures HasRow(all, key) <==> HasRow(rows, key) || key == r.key {
      if i :| 0 <= i < |rows| && rows[i].key == key {
        assert all[i].key == key;
      }
    }
  }

  function Inserted(rows: seq<Row>, r: Row): seq<Row> {
    if rows == [] then [r]
    else if RowLess(r, rows[0]) then [r] + rows
    else [rows[0]] + Inserted(rows[1..], r)
  }

  /** `results.sort()` */
  function Sorted(rows: seq<Row>): seq<Row> {
    if rows == [] then [] else Inserted(Sorted(rows[1..]), rows[0])
  }

  lemma RowOrder(a: Row, b: Row, c: Row)
    ensures a.key != b.key ==> RowLess(a, b) || RowLess(b, a)
    ensures RowLess(a, b) && RowLess(b, c) ==> RowLess(a, c)
  {
    hide JsonValue.TextLess;
    JsonValue.TextLessTrichotomy(a.key, b.key);
    if JsonValue.TextLess(a.key, b.key) && JsonValue.TextLess(b.key, c.key) {
      JsonValue.TextLessTransitive(a.key, b.key, c.key);
    }
  }

  lemma {:induction false} InsertedRows(rows: seq<Row>, r: Row)
    requires InOrder(rows) && !HasRow(rows, r.key)
    ensures InOrder(Inserted(rows, r)) && forall x :: x in Inserted(rows, r) <==> x in rows || x == r
  {
    hide RowLess;
    if rows != [] {
      if RowLess(r, rows[0]) {
        forall x | x in rows[1..] ensures RowLess(r, x) {
          RowOrder(r, rows[0], x);
        }
      } else {
        RowOrder(r, rows[0], r);
        forall key | HasRow(rows[1..], key) ensures HasRow(rows, key) {
          var i :| 0 <= i < |rows[1..]| && rows[1..][i].key == key;
          assert rows[i + 1].key == key;
        }
        InsertedRows(rows[1..], r);
        assert forall x :: x in rows[1..] ==> RowLess(rows[0], x);
      }
    }
  }

  lemma {:induction false} InsertedOnce(rows: seq<Row>, r: Row)
    ensures forall key :: HasRow(Inserted(rows, r), key) <==> HasRow(rows, key) || key == r.key
    ensures OneEach(rows) && !HasRow(rows, r.key) ==> OneEach(Inserted(rows, r))
  {
    hide RowLess;
    PrependRow(r, rows);
    if rows != [] && !RowLess(r, rows[0]) {
      InsertedOnce(rows[1..], r);
      PrependRow(rows[0], rows[1..]);
      PrependRow(rows[0], Inserted(rows[1..], r));
      assert [rows[0]] + rows[1..] == rows;
    }
  }

  lemma PrependRow(r: Row, rows: seq<Row>)
    ensures forall key :: HasRow([r] + rows, key) <==> key == r.key || HasRow(rows, key)
    ensures OneEach([r] + rows) <==> OneEach(rows) && !HasRow(rows, r.key)
  {
    var all := [r] + rows;
    assert all[0] == r && forall i :: 0 <= i < |rows| ==> all[i + 1] == rows[i];
    forall key ensures HasRow(all, key) <==> key == r.key || HasRow(rows, key) {
      if i :| 0 <= i < |all| && all[i].key == key {
        assert i > 0 ==> rows[i - 1].key == key;
      }
    }
    if OneEach(all) {
      forall i, j | 0 <= i < j < |rows| ensures rows[i].key != rows[j].key {
        assert all[i + 1].key != all[j + 1].key;
      }
      forall i | 0 <= i < |rows| ensures rows[i].key != r.key {
        assert all[0].key != all[i + 1].key;
      }
    }
  }

  /** Sorting orders the rows and keeps them. */
  lemma {:induction false} SortedRows(rows: seq<Row>)
    requires OneEach(rows)
    ensures InOrder(Sorted(rows)) && OneEach(Sorted(rows))
    ensures forall x :: x in Sorted(rows) <==> x in rows
    ensures forall key :: HasRow(Sorted(rows), key) <==> HasRow(rows, key)
    ensures rows == [] <==> Sorted(rows) == []
  {
    hide RowLess, OneEach, HasRow, Inserted;
    if rows != [] {
      assert [rows[0]] + rows[1..] == rows;
      PrependRow(rows[0], rows[1..]);
      SortedRows(rows[1..]);
      InsertedRows(Sorted(rows[1..]), rows[0]);
      InsertedOnce(Sorted(rows[1..]), rows[0]);
      assert rows[0] in Sorted(rows);
    }
  }
}
