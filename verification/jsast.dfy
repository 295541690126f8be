/** The syntax-tree nodes the scanner of `lib/scanners/javascript.js` looks at,
    and its call-site recognition: `isStringLiteral`, `isStrConcatExpr`,
    `checkExpr` and `extractStr`.

    The tree is what the JavaScript parser produces, reduced to the shapes the
    scanner distinguishes. A call node carries its 1-based start line and the
    leading comments attached to it; a compound node stands for every other
    node kind (statements, declarations, functions, ...) with its children in
    traversal order and its own leading comments. */
module JsAst {
  import opened Wrappers

  datatype Node =
    | StrLit(value: string)            // a `Literal` whose value is a string
    | OtherLit                         // a numeric, boolean, null or regular-expression `Literal`
    | Ident(name: string)              // an `Identifier`
    | Binary(op: string, left: Node, right: Node)
    | Member(object: Node, property: Node)   // `a.b` or `a[b]`; `property` is the node after the dot or inside the brackets
    | Call(callee: Node, arguments: seq<Node>, line: nat, comments: seq<string>)
    | Compound(children: seq<Node>, comments: seq<string>)

  /** `node.name`: only identifiers have one. */
  function NameOf(n: Node): Option<string> {
    if n.Ident? then Some(n.name) else None
  }

  /** The leading comments attached to a node (`node.leadingComments`). */
  function LeadingComments(n: Node): seq<string> {
    match n
    case Call(_, _, _, c) => c
    case Compound(_, c) => c
    case _ => []
  }

  /** `isStringLiteral(node)`. */
  predicate IsStringLiteral(n: Node) {
    n.StrLit?
  }

  /** `isStrConcatExpr(node)`: a binary `+` both of whose operands are string
      literals or, recursively, such concatenations. */
  predicate IsStrConcatExpr(n: Node) {
    && n.Binary? && n.op == "+"
    && (IsStringLiteral(n.left) || IsStrConcatExpr(n.left))
    && (IsStringLiteral(n.right) || IsStrConcatExpr(n.right))
  }

  /** An argument `checkExpr` accepts and `extractStr` can resolve. */
  predicate IsResolvable(n: Node) {
    IsStringLiteral(n) || IsStrConcatExpr(n)
  }

  /** The callee test of `checkExpr`. `keyword` is `options.keyword`, possibly
      undefined. The member branch compares `property.name` with the keyword
      without checking that either is defined. */
  predicate CalleeMatches(callee: Node, keyword: Option<string>) {
    || (NameOf(callee).Some? && NameOf(callee).value != ""
        && (NameOf(callee).value == "gettext" || NameOf(callee) == keyword))
    || (callee.Member?
        && (NameOf(callee.property) == Some("gettext") || NameOf(callee.property) == keyword))
  }

  /** `checkExpr(node, keyword)`. */
  predicate CheckExpr(n: Node, keyword: Option<string>) {
    && n.Call?
    && CalleeMatches(n.callee, keyword)
    && |n.arguments| > 0
    && (IsStrConcatExpr(n.arguments[0]) || IsStringLiteral(n.arguments[0]))
  }

  /** `extractStr(node)`, which its callers only apply to accepted arguments. */
  function ExtractStr(n: Node): string
    requires IsResolvable(n)
  {
    if IsStringLiteral(n) then n.value else ExtractStr(n.left) + ExtractStr(n.right)
  }

  // ---------------------------------------------------------------------------
  // An independent reading: the leaves of a `+` tree

  /** The operands of a tree of binary `+`, left to right; any other node is a
      single leaf. */
  function PlusLeaves(n: Node): (ls: seq<Node>)
    ensures |ls| >= 1
  {
    if n.Binary? && n.op == "+" then PlusLeaves(n.left) + PlusLeaves(n.right) else [n]
  }

  predicate AllStringLiterals(ls: seq<Node>) {
    forall i :: 0 <= i < |ls| ==> ls[i].StrLit?
  }

  /** The literal texts of string-literal leaves, concatenated in order. */
  function LeafText(ls: seq<Node>): string
    requires AllStringLiterals(ls)
  {
    if |ls| == 0 then "" else ls[0].value + LeafText(ls[1..])
  }

  lemma {:induction false} LeafTextAppend(a: seq<Node>, b: seq<Node>)
    requires AllStringLiterals(a) && AllStringLiterals(b)
    ensures AllStringLiterals(a + b)
    ensures LeafText(a + b) == LeafText(a) + LeafText(b)
  {
    if |a| == 0 {
      assert a + b == b;
    } else {
      assert (a + b)[1..] == a[1..] + b;
      LeafTextAppend(a[1..], b);
    }
  }

  /** An argument is resolvable exactly when every leaf of its `+` tree is a
      string literal: one identifier, number or other expression anywhere
      among the leaves disqualifies it. */
  lemma {:induction false} ResolvableIffStringLeaves(n: Node)
    ensures IsResolvable(n) <==> AllStringLiterals(PlusLeaves(n))
  {
    if n.Binary? && n.op == "+" {
      ResolvableIffStringLeaves(n.left);
      ResolvableIffStringLeaves(n.right);
      var a, b := PlusLeaves(n.left), PlusLeaves(n.right);
      assert PlusLeaves(n) == a + b;
      assert forall i :: 0 <= i < |a| ==> (a + b)[i] == a[i];
      assert forall i :: 0 <= i < |b| ==> (a + b)[|a| + i] == b[i];
      assert AllStringLiterals(a + b) <==> AllStringLiterals(a) && AllStringLiterals(b) by {
        if AllStringLiterals(a) && AllStringLiterals(b) {
          forall i | 0 <= i < |a + b| ensures (a + b)[i].StrLit? {
            if i >= |a| {
              assert (a + b)[i] == b[i - |a|];
            }
          }
        }
      }
      assert IsResolvable(n) <==> IsResolvable(n.left) && IsResolvable(n.right);
    } else {
      assert PlusLeaves(n) == [n] && [n][0] == n;
      assert AllStringLiterals([n]) <==> n.StrLit?;
      assert !IsStrConcatExpr(n);
    }
  }

  /** `isStrConcatExpr` holds iff the node is a binary `+` whose leaves, on both
      sides and at every depth, are all string literals. */
  lemma StrConcatIffStringLeaves(n: Node)
    ensures IsStrConcatExpr(n) <==> n.Binary? && n.op == "+" && AllStringLiterals(PlusLeaves(n))
  {
    ResolvableIffStringLeaves(n);
  }

  /** `extractStr` concatenates the literal leaves in left-to-right order. */
  lemma {:induction false} ExtractStrIsLeafText(n: Node)
    requires IsResolvable(n)
    ensures AllStringLiterals(PlusLeaves(n))
    ensures ExtractStr(n) == LeafText(PlusLeaves(n))
  {
    ResolvableIffStringLeaves(n);
    if !IsStringLiteral(n) {
      ExtractStrIsLeafText(n.left);
      ExtractStrIsLeafText(n.right);
      LeafTextAppend(PlusLeaves(n.left), PlusLeaves(n.right));
    }
  }

  /** `gettext("a" + "b" + "c")` resolves to "abc". */
  lemma ConcatenationExample()
    ensures var arg := Binary("+", Binary("+", StrLit("a"), StrLit("b")), StrLit("c"));
            IsResolvable(arg) && ExtractStr(arg) == "abc"
  {
  }

  /** What `checkExpr` accepts, stated through the leaves of the first
      argument: a call, with at least one argument whose `+` leaves are all
      string literals, whose callee is the identifier `gettext` or the keyword,
      or a member expression whose property is named `gettext` or the keyword. */
  lemma CheckExprIff(n: Node, keyword: Option<string>)
    ensures CheckExpr(n, keyword) <==>
      && n.Call?
      && |n.arguments| > 0
      && AllStringLiterals(PlusLeaves(n.arguments[0]))
      && ((n.callee.Ident? && n.callee.name != ""
           && (n.callee.name == "gettext" || Some(n.callee.name) == keyword))
          || (n.callee.Member? && n.callee.property.Ident?
              && (n.callee.property.name == "gettext" || Some(n.callee.property.name) == keyword))
          || (n.callee.Member? && !n.callee.property.Ident? && keyword.None?))
  {
    if n.Call? && |n.arguments| > 0 {
      ResolvableIffStringLeaves(n.arguments[0]);
    }
  }

  /** With no keyword configured, a member call whose property is not an
      identifier, such as `a["x"]("y")`, is taken for a gettext call; with a
      keyword it is not. */
  lemma ComputedMemberQuirk(obj: Node, prop: Node, arg: string, line: nat, c: seq<string>, k: string)
    requires !prop.Ident?
    ensures CheckExpr(Call(Member(obj, prop), [StrLit(arg)], line, c), None)
    ensures !CheckExpr(Call(Member(obj, prop), [StrLit(arg)], line, c), Some(k))
  {
  }
}
