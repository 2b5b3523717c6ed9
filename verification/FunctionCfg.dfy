/** The per-function node table that the analysis passes fill in, one field a column. */
module FunctionTables {
  import opened Graph
  import opened PathTable

  /** An entry of prev_node[] and prev_link_index[]. */
  datatype PrevLink = PrevLink(node: nat, link: nat)

  /** The entries of `prev` (node 0 marks an unknown one) are exactly the links. */
  ghost predicate MutualLinks(g: Cfg, prev: seq<seq<PrevLink>>)
    requires WellFormed(g)
  {
    && |prev| == |g|
    && (forall n, m :: 0 <= n < |g| && 0 <= m < |prev[n]| && prev[n][m].node != 0 ==> IsLink(g, prev[n][m], n))
    && (forall u, i :: 1 <= u < |g| && 0 <= i < |g[u]| ==> PrevLink(u, i) in prev[g[u][i]])
  }

  ghost predicate IsLink(g: Cfg, p: PrevLink, n: nat) {
    IsNode(g, p.node) && p.link < |g[p.node]| && g[p.node][p.link] == n
  }

  /** is_normal, is_loop_exit and is_loop_entry of a link. */
  datatype LinkFlags = LinkFlags(isNormal: bool, isExit: bool, isEntry: bool)

  datatype NodeType = UnknownNode | LoopNode | IfThenElseNode | IfThenGotoNode | LoopThenElseNode | JumpTableNode

  class FunctionCfg {
    const succ: Cfg                      // link_next[].node
    const prev: seq<seq<PrevLink>>       // prev_node[] and prev_link_index[]
    var loopEdge: seq<seq<bool>>         // link_next[].is_loop_edge
    var linkFlags: seq<seq<LinkFlags>>   // the other flags of link_next[]
    var nodeType: seq<NodeType>
    var loopHead: seq<bool>
    var memberOfLoop: seq<seq<nat>>      // the heads of the loops a node belongs to
    var paths: seq<Path>
    var nodePaths: seq<seq<nat>>         // the paths that touch a node
    var nodeLoopedPaths: seq<seq<nat>>   // the loop paths that touch a node
    var dominator: seq<nat>
    var ifTail: seq<nat>
    var depth: seq<nat>

    /** Every column has one row for each node number. */
    ghost predicate Shaped()
      reads this
    {
      && WellFormed(succ)
      && MutualLinks(succ, prev)
      && |loopEdge| == |loopHead| == |nodePaths| == |nodeLoopedPaths| == |succ|
      && |dominator| == |ifTail| == |depth| == |nodeType| == |memberOfLoop| == |succ|
      && |linkFlags| == |succ|
      && forall n :: 0 <= n < |succ| ==> |loopEdge[n]| == |linkFlags[n]| == |succ[n]|
    }

    /** A table as `calloc` leaves it: nothing analysed yet. */
    ghost predicate Blank()
      reads this
    {
      && Shaped()
      && paths == []
      && (forall n, i :: 0 <= n < |succ| && 0 <= i < |succ[n]| ==>
            !loopEdge[n][i] && linkFlags[n][i] == LinkFlags(false, false, false))
      && (forall n :: 0 <= n < |succ| ==>
            && !loopHead[n]
            && nodePaths[n] == [] && nodeLoopedPaths[n] == []
            && nodeType[n] == UnknownNode && memberOfLoop[n] == []
            && dominator[n] == 0 && ifTail[n] == 0 && depth[n] == 0)
    }

    constructor (g: Cfg, back: seq<seq<PrevLink>>)
      requires WellFormed(g) && MutualLinks(g, back)
      ensures Blank() && succ == g && prev == back
    {
      succ := g;
      prev := back;
      loopEdge := seq(|g|, n requires 0 <= n < |g| => seq(|g[n]|, i => false));
      linkFlags := seq(|g|, n requires 0 <= n < |g| => seq(|g[n]|, i => LinkFlags(false, false, false)));
      nodeType := seq(|g|, n => UnknownNode);
      memberOfLoop := seq(|g|, n => []);
      loopHead := seq(|g|, n => false);
      paths := [];
      nodePaths := seq(|g|, n => []);
      nodeLoopedPaths := seq(|g|, n => []);
      dominator := seq(|g|, n => 0);
      ifTail := seq(|g|, n => 0);
      depth := seq(|g|, n => 0);
    }
  }
}
