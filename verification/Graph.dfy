/** Dependency graphs: what it means for a cycle to be reachable from a node,
    and the three-colour depth-first search that decides it. */
module Graph {

  type Node = nat
  type Adj = map<Node, seq<Node>>

  /** `adj.get(node, [])` */
  function Succ(adj: Adj, n: Node): seq<Node> {
    if n in adj then adj[n] else []
  }

  ghost predicate IsPath(adj: Adj, p: seq<Node>) {
    forall i {:trigger p[i]} | 0 <= i < |p| - 1 :: p[i + 1] in Succ(adj, p[i])
  }

  /** A path that starts at `root` and comes back to a node it has visited. */
  ghost predicate Lasso(adj: Adj, root: Node, p: seq<Node>) {
    && |p| > 1
    && p[0] == root
    && IsPath(adj, p)
    && p[|p| - 1] in p[..|p| - 1]
  }

  /** A cycle is reachable from `root`. */
  ghost predicate CycleFrom(adj: Adj, root: Node) {
    exists p :: Lasso(adj, root, p)
  }

  /** `m` stands among the first `k` nodes of the list. */
  ghost predicate Above(order: seq<Node>, k: nat, m: Node) {
    exists j: nat :: j < k && j < |order| && order[j] == m
  }

  /** Every edge leaving a listed node goes to a node listed before it. */
  ghost predicate Layered(adj: Adj, order: seq<Node>) {
    forall k: nat, m | k < |order| && m in Succ(adj, order[k]) :: Above(order, k, m)
  }

  /** From a layered node every path goes strictly up the list. */
  lemma {:induction false} PathClimbs(adj: Adj, order: seq<Node>, k: nat, p: seq<Node>)
    requires Layered(adj, order) && k < |order|
    requires |p| > 0 && p[0] == order[k] && IsPath(adj, p)
    ensures forall i | 0 < i < |p| :: Above(order, k, p[i])
    decreases |p|
  {
    if |p| > 1 {
      assert p[1] in Succ(adj, p[0]);
      assert Above(order, k, p[1]);
      var j: nat :| j < k && order[j] == p[1];
      SuffixPath(adj, p, 1);
      PathClimbs(adj, order, j, p[1..]);
      forall i | 1 < i < |p| ensures Above(order, k, p[i]) {
        assert p[i] == p[1..][i - 1];
      }
    }
  }

  /** Suffixes of a path are paths. */
  lemma SuffixPath(adj: Adj, p: seq<Node>, i: nat)
    requires IsPath(adj, p) && i <= |p|
    ensures IsPath(adj, p[i..])
  {
    forall k | 0 <= k < |p[i..]| - 1 ensures p[i..][k + 1] in Succ(adj, p[i..][k]) {
      assert p[i + k + 1] in Succ(adj, p[i + k]);
    }
  }

  /** A path through a node of a duplicate-free layered list never comes back to it. */
  lemma NoReturn(adj: Adj, order: seq<Node>, j: nat, p: seq<Node>, i: nat)
    requires Layered(adj, order) && j < |order|
    requires forall m, n | 0 <= m < n < |order| :: order[m] != order[n]
    requires IsPath(adj, p) && i < |p| - 1 && p[i] == order[j]
    ensures p[|p| - 1] != p[i]
  {
    SuffixPath(adj, p, i);
    var q := p[i..];
    PathClimbs(adj, order, j, q);
    assert Above(order, j, q[|q| - 1]);
  }

  /** No cycle is reachable from a node of a duplicate-free layered list. */
  lemma LayeredIsAcyclic(adj: Adj, order: seq<Node>, k: nat)
    requires Layered(adj, order) && k < |order|
    requires forall i, j | 0 <= i < j < |order| :: order[i] != order[j]
    ensures !CycleFrom(adj, order[k])
  {
    forall p | Lasso(adj, order[k], p) ensures false {
      var i: nat :| i < |p| - 1 && p[i] == p[|p| - 1];
      PathClimbs(adj, order, k, p);
      assert i > 0 ==> Above(order, k, p[i]);
      var j: nat :| j < |order| && order[j] == p[i];
      NoReturn(adj, order, j, p, i);
    }
  }

  lemma ExtendPath(adj: Adj, p: seq<Node>, n: Node)
    requires |p| > 0 && IsPath(adj, p) && n in Succ(adj, p[|p| - 1])
    ensures IsPath(adj, p + [n])
  {
    var q := p + [n];
    forall i | 0 <= i < |q| - 1 ensures q[i + 1] in Succ(adj, q[i]) {
      if i < |p| - 1 {
        assert p[i + 1] in Succ(adj, p[i]);
      }
    }
  }

  /** A node whose successors are all listed may be listed next. */
  lemma LayerOnTop(adj: Adj, order: seq<Node>, n: Node)
    requires Layered(adj, order)
    requires forall m | m in Succ(adj, n) :: m in order
    ensures Layered(adj, order + [n])
  {
    var up := order + [n];
    forall k: nat, m | k < |up| && m in Succ(adj, up[k]) ensures Above(up, k, m) {
      if k < |order| {
        assert Above(order, k, m);
      }
      var j: nat :| j < |order| && j < k && order[j] == m;
      assert up[j] == m;
    }
  }

  datatype Color = Grey | Black

  /** What the search keeps: `stack` lists the grey nodes, root first, and is a
      path; `done` lists the black ones, each above all its successors. */
  ghost predicate Marked(adj: Adj, color: map<Node, Color>, done: seq<Node>, stack: seq<Node>) {
    && (forall n :: n in stack <==> n in color && color[n] == Grey)
    && (forall n :: n in done <==> n in color && color[n] == Black)
    && (forall i, j | 0 <= i < j < |done| :: done[i] != done[j])
    && Layered(adj, done)
    && IsPath(adj, stack)
  }

  lemma TurnGrey(adj: Adj, color: map<Node, Color>, done: seq<Node>, stack: seq<Node>, n: Node)
    requires Marked(adj, color, done, stack) && n !in color && IsPath(adj, stack + [n])
    ensures Marked(adj, color[n := Grey], done, stack + [n])
  {
  }

  lemma PopPath(adj: Adj, p: seq<Node>, n: Node)
    requires IsPath(adj, p + [n])
    ensures IsPath(adj, p)
  {
    var q := p + [n];
    forall i | 0 <= i < |p| - 1 ensures p[i + 1] in Succ(adj, p[i]) {
      assert q[i + 1] in Succ(adj, q[i]);
    }
  }

  lemma TurnBlack(adj: Adj, color: map<Node, Color>, done: seq<Node>, stack: seq<Node>, n: Node)
    requires Marked(adj, color, done, stack + [n]) && n !in stack
    requires forall m | m in Succ(adj, n) :: m in done
    ensures Marked(adj, color[n := Black], done + [n], stack)
  {
    LayerOnTop(adj, done, n);
    PopPath(adj, stack, n);
    assert forall m :: m in stack + [n] <==> m in stack || m == n;
    assert forall m :: m in done + [n] <==> m in done || m == n;
  }

  lemma GreyNeighbourCloses(adj: Adj, color: map<Node, Color>, done: seq<Node>, stack: seq<Node>, m: Node)
    requires |stack| > 0 && Marked(adj, color, done, stack)
    requires m in Succ(adj, stack[|stack| - 1]) && m in stack
    ensures CycleFrom(adj, stack[0])
  {
    ExtendPath(adj, stack, m);
    assert (stack + [m])[..|stack|] == stack;
    assert Lasso(adj, stack[0], stack + [m]);
  }

  /** The search: white nodes have no colour yet. */
  class CycleFinder {
    const adj: Adj
    var color: map<Node, Color>
    ghost var done: seq<Node>

    constructor (adj: Adj)
      ensures this.adj == adj && color == map[] && done == []
    {
      this.adj := adj;
      color := map[];
      done := [];
    }

    /** Every node the search can meet. */
    ghost function Nodes(): set<Node> {
      adj.Keys + set n, m | n in adj && m in adj[n] :: m
    }

    ghost predicate Valid(stack: seq<Node>)
      reads this
    {
      Marked(adj, color, done, stack) && color.Keys <= Nodes()
    }

    /** True exactly when a cycle is reachable from the start of the stack
        through `node`: a cycle is exhibited, or every node met is layered. */
    method Dfs(node: Node, ghost stack: seq<Node>) returns (found: bool)
      requires Valid(stack) && node !in color && node in Nodes() && IsPath(adj, stack + [node])
      modifies this
      ensures found ==> CycleFrom(adj, (stack + [node])[0])
      ensures !found ==> Valid(stack) && node in done
      ensures !found ==> old(color.Keys) <= color.Keys && old(done) <= done
      decreases Nodes() - color.Keys
    {
      TurnGrey(adj, color, done, stack, node);
      color := color[node := Grey];
      ghost var path := stack + [node];
      var next := if node in adj then adj[node] else [];
      for i := 0 to |next|
        invariant Valid(path)
        invariant old(color.Keys) + {node} <= color.Keys && old(done) <= done
        invariant forall m | m in next[..i] :: m in done
      {
        var neighbour := next[i];
        assert neighbour in Succ(adj, path[|path| - 1]);
        if neighbour in color && color[neighbour] == Grey {
          GreyNeighbourCloses(adj, color, done, path, neighbour);
          return true;
        }
        if neighbour !in color {
          ExtendPath(adj, path, neighbour);
          var below := Dfs(neighbour, path);
          if below {
            return true;
          }
        }
        assert next[..i + 1] == next[..i] + [neighbour];
      }
      assert next[..|next|] == next;
      TurnBlack(adj, color, done, stack, node);
      color := color[node := Black];
      done := done + [node];
      return false;
    }
  }

  /** _detect_cycle: sound and complete for every adjacency map. */
  method DetectCycle(adj: Adj, root: Node) returns (found: bool)
    requires root in adj
    ensures found <==> CycleFrom(adj, root)
  {
    var finder := new CycleFinder(adj);
    found := finder.Dfs(root, []);
    if !found {
      ghost var k: nat :| k < |finder.done| && finder.done[k] == root;
      LayeredIsAcyclic(adj, finder.done, k);
    }
  }
}
