/** `NavigationBindingExpression`: the placeholder that stands for "the entity
    reached from a root parameter along a node of the navigation tree".  The
    record itself is the `Binding` arm of `Expr`; this module gives its
    printed form and shows that the two paths it prints can be read back. */
module NavigationBinding {
  import opened Outcomes
  import opened Clr
  import opened Expressions
  import opened NavigationTree

  /** `string.Join(".", path)`. */
  function JoinPath(path: seq<string>): (r: string)
    ensures path == [] ==> r == ""
    ensures |path| == 1 ==> r == path[0]
    ensures |path| > 1 ==> r == path[0] + "." + JoinPath(path[1..])
    decreases |path|
  {
    if path == [] then ""
    else if |path| == 1 then path[0]
    else path[0] + "." + JoinPath(path[1..])
  }

  /** A path segment is a member name: non-empty and free of the separator. */
  predicate Segment(s: string) {
    |s| > 0 && forall i :: 0 <= i < |s| ==> s[i] != '.'
  }

  /** The position of the first separator, or `|s|` when there is none. */
  function FirstDot(s: string): (r: nat)
    ensures r <= |s|
    ensures forall i :: 0 <= i < r ==> s[i] != '.'
    ensures r < |s| ==> s[r] == '.'
    decreases |s|
  {
    if s == [] then 0
    else if s[0] == '.' then 0
    else 1 + FirstDot(s[1..])
  }

  /** Reads a dotted path back into its segments. */
  function SplitPath(s: string): (r: seq<string>)
    ensures s == [] <==> r == []
    decreases |s|
  {
    if s == [] then []
    else
      var i := FirstDot(s);
      if i == |s| then [s] else [s[..i]] + SplitPath(s[i + 1..])
  }

  lemma {:induction false} FirstDotAfterSegment(seg: string, rest: string)
    requires Segment(seg)
    ensures FirstDot(seg + rest) == |seg| || (rest != [] && rest[0] != '.')
    ensures rest != [] && rest[0] == '.' ==> FirstDot(seg + rest) == |seg|
    ensures rest == [] ==> FirstDot(seg + rest) == |seg|
    decreases |seg|
  {
    if |seg| > 1 {
      FirstDotAfterSegment(seg[1..], rest);
      assert (seg + rest)[1..] == seg[1..] + rest;
    }
  }

  /** Joining member names and splitting the result gives the names back. */
  lemma {:induction false} SplitJoinPath(path: seq<string>)
    requires forall k :: 0 <= k < |path| ==> Segment(path[k])
    ensures SplitPath(JoinPath(path)) == path
    decreases |path|
  {
    if |path| == 1 {
      FirstDotAfterSegment(path[0], "");
      assert path[0] + "" == path[0];
    } else if |path| > 1 {
      var tail := "." + JoinPath(path[1..]);
      FirstDotAfterSegment(path[0], tail);
      assert JoinPath(path) == path[0] + tail;
      var s := JoinPath(path);
      assert s[..|path[0]|] == path[0];
      assert s[|path[0]| + 1..] == JoinPath(path[1..]);
      SplitJoinPath(path[1..]);
    }
  }

  lemma Regroup(a: string, b: string, c: string)
    ensures a + b + c == a + (b + c)
  {
  }

  /** What follows a prefix of a text. */
  lemma After(p: string, x: string)
    ensures (p + x)[|p|..] == x && (p + x)[..|p|] == p
  {
  }

  /** `ExpressionPrinter.Visit` of a parameter: its name. */
  function PrintParameter(p: Param): string {
    p.name
  }

  /** `ShortDisplayName()` of the entity type's CLR type. */
  function ShortDisplayName(t: EntityType): (r: TypeName)
    ensures r == NameOf(t.ClrType())
  {
    t.name
  }

  // The fixed text of the printed binding.
  const BindingOpen := "BINDING(["
  const TypeClose := "] | "
  const Arrow := " -> "

  /** The three parts of the printed binding, with the text around them. */
  function PrintParts(typeName: string, fromPath: seq<string>, root: string, toPath: seq<string>): (r: string)
    ensures |r| == 9 + |typeName| + 4 + |JoinPath(fromPath)| + 4 + |root| + 1 + |JoinPath(toPath)| + 1
    ensures r[..9] == BindingOpen && r[|r| - 1] == ')'
  {
    BindingOpen + typeName + TypeClose + JoinPath(fromPath) + Arrow + root + "." + JoinPath(toPath) + ")"
  }

  /** `NavigationBindingExpression.Print`: `.First()` of the node's from-paths
      fails on an empty list. */
  function Print(nodes: seq<TreeNode>, b: Expr): (r: Result<string>)
    requires b.Binding? && b.navigationTreeNode < |nodes|
    ensures nodes[b.navigationTreeNode].fromMappings == [] <==> r.Err?
    ensures r.Ok? ==> r.value == PrintParts(ShortDisplayName(b.entityType),
                                            nodes[b.navigationTreeNode].fromMappings[0],
                                            PrintParameter(b.rootParameter),
                                            nodes[b.navigationTreeNode].toMapping)
  {
    var node := nodes[b.navigationTreeNode];
    if node.fromMappings == [] then Err(InvalidOperation(NoElements))
    else
      Ok(BindingOpen + ShortDisplayName(b.entityType) + TypeClose
         + JoinPath(node.fromMappings[0]) + Arrow
         + PrintParameter(b.rootParameter) + "."
         + JoinPath(node.toMapping) + ")")
  }

  /** In a well-formed tree a binding always prints. */
  lemma PrintSucceeds(nodes: seq<TreeNode>, b: Expr)
    requires WellFormed(nodes) && b.Binding? && b.navigationTreeNode < |nodes|
    ensures Print(nodes, b).Ok?
  {
    assert NodeOk(nodes, b.navigationTreeNode);
  }

  /** The printed form determines both paths: the text between `] | ` and
      ` -> ` is the first from-path and the text between the root and the
      closing parenthesis is the to-path. */
  lemma {:induction false} PrintedPathsReadBack(typeName: string, fromPath: seq<string>, root: string, toPath: seq<string>)
    requires forall k :: 0 <= k < |fromPath| ==> Segment(fromPath[k])
    requires forall k :: 0 <= k < |toPath| ==> Segment(toPath[k])
    ensures var r := PrintParts(typeName, fromPath, root, toPath);
            var f := 9 + |typeName| + 4;
            var t := f + |JoinPath(fromPath)| + 4 + |root| + 1;
            SplitPath(r[f..f + |JoinPath(fromPath)|]) == fromPath
            && SplitPath(r[t..|r| - 1]) == toPath
  {
    FromPathReadBack(typeName, fromPath, root, toPath);
    ToPathReadBack(typeName, fromPath, root, toPath);
    SplitJoinPath(fromPath);
    SplitJoinPath(toPath);
  }

  /** The first from-path sits right after the type name and its `] | `. */
  lemma FromPathReadBack(typeName: string, fromPath: seq<string>, root: string, toPath: seq<string>)
    ensures var r := PrintParts(typeName, fromPath, root, toPath);
            var f := 9 + |typeName| + 4;
            r[f..f + |JoinPath(fromPath)|] == JoinPath(fromPath)
  {
    var from := JoinPath(fromPath);
    var head := BindingOpen + typeName + TypeClose;
    var a := head + from;
    var r := PrintParts(typeName, fromPath, root, toPath);
    var rest := Arrow + root + "." + JoinPath(toPath) + ")";
    Regroup(a, Arrow, root);
    Regroup(a, Arrow + root, ".");
    Regroup(a, Arrow + root + ".", JoinPath(toPath));
    Regroup(a, Arrow + root + "." + JoinPath(toPath), ")");
    After(a, rest);
    After(head, from);
  }

  /** The to-path sits between the root's `.` and the closing parenthesis. */
  lemma ToPathReadBack(typeName: string, fromPath: seq<string>, root: string, toPath: seq<string>)
    ensures var r := PrintParts(typeName, fromPath, root, toPath);
            var t := 9 + |typeName| + 4 + |JoinPath(fromPath)| + 4 + |root| + 1;
            r[t..|r| - 1] == JoinPath(toPath)
  {
    var to := JoinPath(toPath);
    var a := BindingOpen + typeName + TypeClose + JoinPath(fromPath) + Arrow + root + ".";
    var r := PrintParts(typeName, fromPath, root, toPath);
    assert r == a + to + ")";
    After(a + to, ")");
    After(a, to);
  }
}
