/** The walk of `lib/scanners/javascript.js`: a pre-order traversal of the
    syntax tree in which every node is checked with `checkExpr`, and every
    accepted call yields a hit carrying its resolved text, its start line and
    the leading comments of its parent node. Children are visited in the order
    the traversal library uses: callee before arguments, object before
    property, left operand before right. */
module Traverse {
  import opened Wrappers
  import opened JsAst

  /** One accepted call site. */
  datatype Hit = Hit(msgid: string, line: nat, comments: seq<string>)

  /** The hit a single node contributes, given its parent's leading comments. */
  function HitAt(n: Node, parentComments: seq<string>, keyword: Option<string>): seq<Hit> {
    if CheckExpr(n, keyword) then [Hit(ExtractStr(n.arguments[0]), n.line, parentComments)] else []
  }

  /** The hits of a subtree, in pre-order. */
  function Hits(n: Node, parentComments: seq<string>, keyword: Option<string>): seq<Hit>
    decreases n
  {
    HitAt(n, parentComments, keyword) +
    match n
    case Binary(_, l, r) => Hits(l, [], keyword) + Hits(r, [], keyword)
    case Member(o, p) => Hits(o, [], keyword) + Hits(p, [], keyword)
    case Call(callee, args, _, c) => Hits(callee, c, keyword) + HitsAll(args, c, keyword)
    case Compound(children, c) => HitsAll(children, c, keyword)
    case _ => []
  }

  /** The hits of sibling subtrees sharing one parent, left to right. */
  function HitsAll(ns: seq<Node>, parentComments: seq<string>, keyword: Option<string>): seq<Hit>
    decreases ns
  {
    if |ns| == 0 then [] else Hits(ns[0], parentComments, keyword) + HitsAll(ns[1..], parentComments, keyword)
  }

  // ---------------------------------------------------------------------------
  // The reference reading: list every visit, then keep the accepted ones

  /** A node as the traversal enters it, with its parent's leading comments. */
  datatype Visit = Visit(node: Node, parentComments: seq<string>)

  /** Every node of a subtree, in the order the traversal enters them. */
  function Visits(n: Node, parentComments: seq<string>): (vs: seq<Visit>)
    ensures |vs| >= 1 && vs[0] == Visit(n, parentComments)
    decreases n
  {
    [Visit(n, parentComments)] +
    match n
    case Binary(_, l, r) => Visits(l, []) + Visits(r, [])
    case Member(o, p) => Visits(o, []) + Visits(p, [])
    case Call(callee, args, _, c) => Visits(callee, c) + VisitsAll(args, c)
    case Compound(children, c) => VisitsAll(children, c)
    case _ => []
  }

  function VisitsAll(ns: seq<Node>, parentComments: seq<string>): seq<Visit>
    decreases ns
  {
    if |ns| == 0 then [] else Visits(ns[0], parentComments) + VisitsAll(ns[1..], parentComments)
  }

  /** The hits of a list of visits: the accepted calls, in order. */
  function HitsOf(vs: seq<Visit>, keyword: Option<string>): seq<Hit> {
    if |vs| == 0 then []
    else HitAt(vs[0].node, vs[0].parentComments, keyword) + HitsOf(vs[1..], keyword)
  }

  lemma {:induction false} HitsOfAppend(a: seq<Visit>, b: seq<Visit>, keyword: Option<string>)
    ensures HitsOf(a + b, keyword) == HitsOf(a, keyword) + HitsOf(b, keyword)
  {
    if |a| == 0 {
      assert a + b == b;
    } else {
      assert (a + b)[0] == a[0];
      assert (a + b)[1..] == a[1..] + b;
      HitsOfAppend(a[1..], b, keyword);
    }
  }

  /** The fused walk reports exactly the accepted nodes among all the visits,
      in pre-order, each with the comments of its parent. */
  lemma {:induction false} HitsArePreOrderMatches(n: Node, parentComments: seq<string>, keyword: Option<string>)
    ensures Hits(n, parentComments, keyword) == HitsOf(Visits(n, parentComments), keyword)
    decreases n
  {
    var vs := Visits(n, parentComments);
    var rest := vs[1..];
    assert vs == [vs[0]] + rest;
    HitsOfAppend([vs[0]], rest, keyword);
    assert HitsOf([vs[0]], keyword) == HitAt(n, parentComments, keyword);
    match n
    case Binary(_, l, r) =>
      HitsArePreOrderMatches(l, [], keyword);
      HitsArePreOrderMatches(r, [], keyword);
      HitsOfAppend(Visits(l, []), Visits(r, []), keyword);
    case Member(o, p) =>
      HitsArePreOrderMatches(o, [], keyword);
      HitsArePreOrderMatches(p, [], keyword);
      HitsOfAppend(Visits(o, []), Visits(p, []), keyword);
    case Call(callee, args, _, c) =>
      HitsArePreOrderMatches(callee, c, keyword);
      HitsAllArePreOrderMatches(args, c, keyword);
      HitsOfAppend(Visits(callee, c), VisitsAll(args, c), keyword);
    case Compound(children, c) =>
      HitsAllArePreOrderMatches(children, c, keyword);
    case StrLit(_) =>
    case OtherLit =>
    case Ident(_) =>
  }

  lemma {:induction false} HitsAllArePreOrderMatches(ns: seq<Node>, parentComments: seq<string>, keyword: Option<string>)
    ensures HitsAll(ns, parentComments, keyword) == HitsOf(VisitsAll(ns, parentComments), keyword)
    decreases ns
  {
    if |ns| > 0 {
      HitsArePreOrderMatches(ns[0], parentComments, keyword);
      HitsAllArePreOrderMatches(ns[1..], parentComments, keyword);
      HitsOfAppend(Visits(ns[0], parentComments), VisitsAll(ns[1..], parentComments), keyword);
    }
  }

  /** `h` is what the accepted call of visit `v` reports: the concatenated
      literal leaves of its first argument, its start line, and its parent's
      leading comments. */
  predicate ReportedBy(h: Hit, v: Visit, keyword: Option<string>) {
    && CheckExpr(v.node, keyword)
    && AllStringLiterals(PlusLeaves(v.node.arguments[0]))
    && h == Hit(LeafText(PlusLeaves(v.node.arguments[0])), v.node.line, v.parentComments)
  }

  /** Every hit stems from an accepted call among the visits. */
  lemma {:induction false} HitsOfSound(vs: seq<Visit>, keyword: Option<string>)
    ensures forall h :: h in HitsOf(vs, keyword) ==> exists i :: 0 <= i < |vs| && ReportedBy(h, vs[i], keyword)
  {
    if |vs| > 0 {
      HitsOfSound(vs[1..], keyword);
      var n := vs[0].node;
      if CheckExpr(n, keyword) {
        ExtractStrIsLeafText(n.arguments[0]);
      }
      forall h | h in HitsOf(vs, keyword)
        ensures exists i :: 0 <= i < |vs| && ReportedBy(h, vs[i], keyword)
      {
        if h in HitAt(n, vs[0].parentComments, keyword) {
          assert ReportedBy(h, vs[0], keyword);
        } else {
          assert h in HitsOf(vs[1..], keyword);
          var j :| 0 <= j < |vs[1..]| && ReportedBy(h, vs[1..][j], keyword);
          assert vs[j + 1] == vs[1..][j];
        }
      }
    }
  }

  /** Every accepted visit is reported. */
  lemma {:induction false} HitsOfComplete(vs: seq<Visit>, keyword: Option<string>)
    ensures forall i :: 0 <= i < |vs| && CheckExpr(vs[i].node, keyword) ==>
      exists h :: h in HitsOf(vs, keyword) && ReportedBy(h, vs[i], keyword)
  {
    if |vs| > 0 {
      HitsOfComplete(vs[1..], keyword);
      forall i | 0 <= i < |vs| && CheckExpr(vs[i].node, keyword)
        ensures exists h :: h in HitsOf(vs, keyword) && ReportedBy(h, vs[i], keyword)
      {
        if i == 0 {
          var n := vs[0].node;
          ExtractStrIsLeafText(n.arguments[0]);
          var h := HitAt(n, vs[0].parentComments, keyword)[0];
          assert ReportedBy(h, vs[0], keyword);
          assert h in HitsOf(vs, keyword);
        } else {
          assert vs[1..][i - 1] == vs[i];
          var h :| h in HitsOf(vs[1..], keyword) && ReportedBy(h, vs[i], keyword);
          assert h in HitsOf(vs, keyword);
        }
      }
    }
  }

  /** A call directly inside a statement reports the statement's leading
      comments, not its own. */
  lemma StatementCommentsReachCall(s: string, line: nat, own: seq<string>, stmt: seq<string>,
                                   outer: seq<string>, keyword: Option<string>)
    ensures Hits(Compound([Call(Ident("gettext"), [StrLit(s)], line, own)], stmt), outer, keyword)
            == [Hit(s, line, stmt)]
  {
    var call := Call(Ident("gettext"), [StrLit(s)], line, own);
    assert Hits(Ident("gettext"), own, keyword) == [];
    assert HitsAll([StrLit(s)], own, keyword) == Hits(StrLit(s), own, keyword) + HitsAll([], own, keyword);
    assert HitsAll([call], stmt, keyword) == Hits(call, stmt, keyword) + HitsAll([], stmt, keyword);
  }
}
