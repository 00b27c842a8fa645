# Navigation expansion, modelled in Dafny

This project models the navigation-expansion stage of the EF Core query
pipeline (`src/EFCore/Query/NavigationExpansion`). That stage takes a LINQ
expression tree in which entity navigations (`order.Customer`,
`blog.Posts`) appear as plain member accesses. It turns them into explicit
joins, correlated subqueries and `Include` calls that later stages can
translate.

The model follows the source file by file, one Dafny module per file:

- `NavigationTree` (`NavigationTreeNode.cs`) is the tree of navigations
  reached from a query source. The nodes live in an arena (`seq<TreeNode>`
  addressed by index). The class `NavigationForest` owns the arena and
  updates it in place, and its methods are proved against the functions
  `CreateRootSpec`, `CreateSpec` and `MakeOptionalSpec`. `Flatten` is the
  preorder walk of a subtree, and `BuildExpression` is the chain of
  property accesses for a node's to-path.
- `NavigationBinding` (`NavigationBindingExpression.cs`) is the binding
  node and its printed form `BINDING([type] from, root.to)`. The model
  proves that the printed text determines both paths.
- `ExpressionExtensions` (`ExpressionExtensions.cs`) covers quote
  unwrapping and parameter substitution (`CombineAndRemap`), including the
  shortcut that reads a member straight out of a `new` expression. It also
  covers parameter-name generation.
- `VisitorBase` (`Visitors/NavigationExpansionVisitorBase.cs`) is the
  shared traversal of the extension nodes and of a navigation-expansion
  state.
- `CollectionNavigationRewriting`
  (`Visitors/CollectionNavigationRewritingVisitor.cs`) rewrites collection
  navigations into correlated `Where` subqueries. It also rewrites
  `Count`, `List.Exists` and `Contains` over them, and copies pending
  includes into the subquery's tree.
- `IncludeApplying` (`Visitors/IncludeApplyingVisitor.cs`) has two parts.
  The pending-include finder is a class whose dictionary is updated in
  place. The include rewriter wraps each binding in one `Include` per
  child marked for inclusion.
- `NavigationExpansion` (`NavigationExpansionExpression.cs`) is the
  navigation-expansion node. `ApplyIncludes` joins the found includes.
  `Reduce` emits orderings, the pending `Select`, tags, the cardinality
  operator, materialisation and the return-type adapter, in that order.
  The ordered adapters are modelled as well.
- `ExpansionReducing` (`Visitors/NavigationExpansionReducingVisitor.cs`)
  is the final pass. It leaves no navigation-expansion node behind: a
  binding becomes its property path, and an include becomes an
  `IncludeMethod` call.
- `NavigationExpanding` (`Visitors/NavigationExpandingVisitor.cs`)
  contains the visitor's `VisitExtension`, `VisitMember` and `VisitBinary`.
  `ProcessMemberPushdown` pushes a member access into a single-result
  subquery. Comparisons of collection navigations are rewritten to
  compare their owners. Comparisons of single results with null are
  rewritten to compare keys.

Supporting modules: `Outcomes` (the `Result` type and the exception kinds
the source throws), `Clr` (CLR types, entity metadata and method
identities) and `Expressions` (the expression tree, its types, its
children and rebuilding).

Conventions:

- Reference identity of expression nodes is value equality of datatypes.
- A fresh `ParameterExpression` takes its identity from a counter threaded
  through a `Ctx`, together with the node arena.
- Collaborators whose source is outside this stage appear as
  function-valued fields of a record, together with the properties the
  model assumes of them. Examples are the navigation binder and unbinder,
  `AddNavigationJoin`, `ProcessSelectCore` and the parameter replacer.
- Every exception the source throws is an `Err` carrying the exception's
  kind.
- The get-only properties of a C# node are the fields of its `Expr` arm.
  For example, the `Binding` arm's five fields are the five constructor
  arguments of `NavigationBindingExpression`, and each is read back as it
  was given.

Two behaviours of the code that shape the model:

- The pending-include finder records only nodes whose include mode is
  `ReferencePending` and whose expansion mode is not `ReferenceComplete`
  (`Visitors/IncludeApplyingVisitor.cs:90-93`). Nodes marked `Collection`
  for inclusion are not recorded; the include rewriter handles them.
- Asking again for an existing child never fails. The requested slot is
  upgraded when it is `NotNeeded`, and otherwise nothing changes
  (`NavigationTreeNode.cs:143-154`). No transition is rejected as an
  error.

## Model

| member | source | states |
|---|---|---|
| NavigationTree.ExtendPaths | src/EFCore/Query/NavigationExpansion/NavigationTreeNode.cs:90-95 | one from-path per parent from-path, in order, each the parent's path with the navigation name appended |
| NavigationTree.ChildNode | src/EFCore/Query/NavigationExpansion/NavigationTreeNode.cs:62-96 | a child created for an include has expansion mode NotNeeded22 and include mode Collection or ReferencePending by collection-ness; otherwise the mirror image with include mode NotNeeded33; the to-path and the children start empty |
| NavigationTree.RootNode | src/EFCore/Query/NavigationExpansion/NavigationTreeNode.cs:98-107 | a fresh root has no navigation and no parent, one from-path, a to-path equal to it, expansion mode ReferenceComplete and include mode NotNeeded33 |
| NavigationTree.CreateRootSpec | src/EFCore/Query/NavigationExpansion/NavigationTreeNode.cs:119-128 | the source mapping's existing tree is returned with the arena unchanged; without one a fresh root is appended; the arena stays well formed |
| NavigationTree.FindChild | src/EFCore/Query/NavigationExpansion/NavigationTreeNode.cs:140 | finds a child whose navigation is the requested one, or proves that none of the children has it |
| NavigationTree.Upgrade | src/EFCore/Query/NavigationExpansion/NavigationTreeNode.cs:143-154 | only the slot for the requested use changes, and only when it was NotNeeded; every other field is kept |
| NavigationTree.CreateSpec | src/EFCore/Query/NavigationExpansion/NavigationTreeNode.cs:130-166 | an existing child for the navigation is upgraded and returned without adding a child; otherwise a new child is appended to the parent, optional iff the parent is optional or the foreign key is not required or the navigation is not dependent-to-principal |
| NavigationTree.UpgradeKeepsWellFormed | src/EFCore/Query/NavigationExpansion/NavigationTreeNode.cs:143-156 | upgrading an existing child keeps the tree well formed |
| NavigationTree.AppendChildKeepsWellFormed | src/EFCore/Query/NavigationExpansion/NavigationTreeNode.cs:159-165 | appending a new child with a navigation its siblings do not have keeps the tree well formed |
| NavigationTree.FindChildUnique | src/EFCore/Query/NavigationExpansion/NavigationTreeNode.cs:140 | in a well-formed tree the lookup of a child's own navigation finds exactly that child (`SingleOrDefault` never sees two) |
| NavigationTree.CreateIdempotent | src/EFCore/Query/NavigationExpansion/NavigationTreeNode.cs:140-157 | calling `Create` a second time with the same parent, navigation and use returns the same node and leaves the arena exactly as the first call left it |
| NavigationTree.MakeOptionalSpec | src/EFCore/Query/NavigationExpansion/NavigationTreeNode.cs:182-185 | the node becomes optional and nothing else in the arena changes |
| NavigationTree.SetExpansionMode | src/EFCore/Query/NavigationExpansion/NavigationTreeNode.cs:113 | the node gets the given expansion mode and nothing else in the arena changes |
| NavigationTree.PreorderMembers | src/EFCore/Query/NavigationExpansion/NavigationTreeNode.cs:168-179 | the flattening of a node holds exactly the nodes below it (itself included) |
| NavigationTree.PreorderNoDuplicates | src/EFCore/Query/NavigationExpansion/NavigationTreeNode.cs:168-179 | the flattening lists no node twice |
| NavigationTree.FlattenIsSubtree | src/EFCore/Query/NavigationExpansion/NavigationTreeNode.cs:168-179 | the flattening starts with the node itself, has no duplicates, and its length is the size of the subtree |
| NavigationTree.NavigationForest.CreateRoot | src/EFCore/Query/NavigationExpansion/NavigationTreeNode.cs:119-128 | updates the arena in place to the state `CreateRootSpec` describes |
| NavigationTree.NavigationForest.ExtendFromMappings | src/EFCore/Query/NavigationExpansion/NavigationTreeNode.cs:90-95 | the constructor's loop over the parent's from-paths computes `ExtendPaths` |
| NavigationTree.NavigationForest.Create | src/EFCore/Query/NavigationExpansion/NavigationTreeNode.cs:130-166 | the search over the children and the in-place update or append give exactly `CreateSpec` |
| NavigationTree.NavigationForest.Flatten | src/EFCore/Query/NavigationExpansion/NavigationTreeNode.cs:168-179 | the node, then each child's flattening in child order: the preorder of the subtree |
| NavigationTree.NavigationForest.MakeOptional | src/EFCore/Query/NavigationExpansion/NavigationTreeNode.cs:182-185 | sets the node's optional flag in place, as `MakeOptionalSpec` |
| NavigationTree.NavigationForest.BuildExpression | src/EFCore/Query/NavigationExpansion/NavigationTreeNode.cs:187-196 | the root parameter followed by one property access per to-path segment, in order; splitting the result gives back the root and exactly the to-path |
| Expressions.SplitPropertyPath | src/EFCore/Query/NavigationExpansion/NavigationTreeNode.cs:187-196 | a chain of property accesses over a non-member root reads back as that root and the path |
| NavigationBinding.JoinPath | src/EFCore/Query/NavigationExpansion/NavigationBindingExpression.cs:42-45 | `string.Join(".", path)`: empty for no segments, the segment for one, segments separated by one dot otherwise |
| NavigationBinding.SplitJoinPath | src/EFCore/Query/NavigationExpansion/NavigationBindingExpression.cs:42-45 | joining member names with dots and splitting the text gives the names back |
| Expressions.CanReduce | src/EFCore/Query/NavigationExpansion/NavigationBindingExpression.cs:35-36 | a binding is an extension node that cannot be reduced; a navigation-expansion node can |
| NavigationBinding.ShortDisplayName | src/EFCore/Query/NavigationExpansion/NavigationBindingExpression.cs:41 | the short name of the entity type's CLR type |
| NavigationBinding.PrintParts | src/EFCore/Query/NavigationExpansion/NavigationBindingExpression.cs:41-45 | the printed text starts with `BINDING([`, ends with `)`, and its length is the sum of its parts |
| NavigationBinding.Print | src/EFCore/Query/NavigationExpansion/NavigationBindingExpression.cs:39-46 | fails exactly when the node has no from-path (`First()` throws); otherwise prints the type name, the first from-path, the root parameter and the to-path |
| NavigationBinding.PrintSucceeds | src/EFCore/Query/NavigationExpansion/NavigationBindingExpression.cs:42 | a binding to a node of a well-formed tree always has a first from-path, so printing succeeds |
| NavigationBinding.PrintedPathsReadBack | src/EFCore/Query/NavigationExpansion/NavigationBindingExpression.cs:41-45 | the printed text determines both the from-path and the to-path: the slices between the markers split back to them |
| IncludeApplying.Record | src/EFCore/Query/NavigationExpansion/Visitors/IncludeApplyingVisitor.cs:92 | the indexer assignment: the node maps to the source mapping, every other key keeps its entry, and the key order stays duplicate-free |
| IncludeApplying.FindSpec | src/EFCore/Query/NavigationExpansion/Visitors/IncludeApplyingVisitor.cs:83-99 | the dictionary gains exactly the pending reference includes reachable without passing a collection navigation, each mapped to the given source mapping; other entries are kept |
| IncludeApplying.FindAllSpec | src/EFCore/Query/NavigationExpansion/Visitors/IncludeApplyingVisitor.cs:95-98 | the loop over the children adds exactly the union of what each child's search adds |
| IncludeApplying.PendingReachMembers | src/EFCore/Query/NavigationExpansion/Visitors/IncludeApplyingVisitor.cs:83-99 | a node is recorded iff it is reached from the start through non-collection nodes and is a pending reference include not yet completed |
| IncludeApplying.FindInExpr | src/EFCore/Query/NavigationExpansion/Visitors/IncludeApplyingVisitor.cs:101-138 | member accesses, `EF.Property` calls, custom roots, expansion roots and expansions add nothing; a binding adds its node's search; unknown extensions fail; a correlation predicate, an include and a null-conditional node search their two parts, and any other node its children, in order through `FindInAll`; every added key is a pending non-collection reference |
| IncludeApplying.FindInAll | src/EFCore/Query/NavigationExpansion/Visitors/IncludeApplyingVisitor.cs:101-138 | no parts leaves the dictionary as given; otherwise it is the search of the rest in the dictionary the first part's search leaves, and a failed first search fails the whole |
| IncludeApplying.PendingIncludeFinder.constructor | src/EFCore/Query/NavigationExpansion/Visitors/IncludeApplyingVisitor.cs:81 | the dictionary starts empty |
| IncludeApplying.PendingIncludeFinder.FindPendingReferenceIncludes | src/EFCore/Query/NavigationExpansion/Visitors/IncludeApplyingVisitor.cs:83-99 | the recursive search updates the dictionary in place to `FindSpec` |
| IncludeApplying.PendingIncludeFinder.FindInChildren | src/EFCore/Query/NavigationExpansion/Visitors/IncludeApplyingVisitor.cs:95-98 | the loop over the children searches each in order, the dictionary ending as the search over all of them (`FindAllSpec`) leaves it |
| IncludeApplying.PendingIncludeFinder.RecordIfPending | src/EFCore/Query/NavigationExpansion/Visitors/IncludeApplyingVisitor.cs:90-93 | records the node with its source mapping exactly when it is a pending reference include that is not yet complete; otherwise the dictionary is unchanged |
| IncludeApplying.PendingIncludeFinder.Visit | src/EFCore/Query/NavigationExpansion/Visitors/IncludeApplyingVisitor.cs:101-138 | returns the visited expression unchanged and leaves the dictionary as `FindInExpr` describes |
| IncludeApplying.PendingIncludeFinder.VisitAll | src/EFCore/Query/NavigationExpansion/Visitors/IncludeApplyingVisitor.cs:101-138 | visits the parts in order and leaves the dictionary as `FindInAll` describes |
| IncludeApplying.CollectionSubqueryExpands | src/EFCore/Query/NavigationExpansion/Visitors/IncludeApplyingVisitor.cs:71-76 | the collection subquery of an include changes existing nodes only in their expansion mode |
| IncludeApplying.IncludeChildren | src/EFCore/Query/NavigationExpansion/Visitors/IncludeApplyingVisitor.cs:27 | exactly the children marked ReferencePending or Collection; empty iff none of them is marked |
| IncludeApplying.IncludeCall | src/EFCore/Query/NavigationExpansion/Visitors/IncludeApplyingVisitor.cs:53-56 | a collection navigation gives `IncludeCollection`, any other gives `IncludeReference`, each wrapping the caller in an include of the node's navigation |
| IncludeApplying.IncludeCollection | src/EFCore/Query/NavigationExpansion/Visitors/IncludeApplyingVisitor.cs:71-76 | a collection include wraps the correlated subquery of the node |
| IncludeApplying.IncludeReference | src/EFCore/Query/NavigationExpansion/Visitors/IncludeApplyingVisitor.cs:58-69 | a reference include wraps a binding to the child node, itself wrapped for the child's own marked children |
| IncludeApplying.IncludeFold | src/EFCore/Query/NavigationExpansion/Visitors/IncludeApplyingVisitor.cs:27-30 | no children gives the caller unchanged; otherwise one include per child, in child order, around the binding, each layer being `IncludeCall` of that child (see `IncludeFoldLayers`) |
| IncludeApplying.IncludeFoldLayers | src/EFCore/Query/NavigationExpansion/Visitors/IncludeApplyingVisitor.cs:27-30 | a non-empty fold is the fold of the remaining children around `IncludeCall` of the first child, and the remaining children stay marked navigations of the grown arena |
| IncludeApplying.RewriteBindingFolds | src/EFCore/Query/NavigationExpansion/Visitors/IncludeApplyingVisitor.cs:23-33 | a binding's rewrite is exactly `IncludeFold` over the children of its node marked reference-pending or collection, each a navigation node inside the arena |
| IncludeApplying.RewriteIncludes | src/EFCore/Query/NavigationExpansion/Visitors/IncludeApplyingVisitor.cs:11-51 | member accesses, `EF.Property` calls, custom roots, expansion roots and expansions are returned as is; unknown extensions fail; a binding gives exactly `RewriteBinding`; a correlation predicate, an include and a null-conditional node give `RewriteIncludesParts`; any other node has its children visited in order through `RewriteIncludesAll`, whose failure is the result, and is rebuilt only when a child changed |
| IncludeApplying.RewriteBinding | src/EFCore/Query/NavigationExpansion/Visitors/IncludeApplyingVisitor.cs:23-33 | the binding wrapped in one include per marked child of its node, in child order: exactly `IncludeFold` over the marked children (see `RewriteBindingFolds`) |
| IncludeApplying.RewriteIncludesParts | src/EFCore/Query/NavigationExpansion/Visitors/IncludeApplyingVisitor.cs:50 | both parts are visited in order, the second in the context the first leaves; it succeeds exactly when both visits succeed (and, for a correlation predicate, the visited comparison is still binary); a failed visit fails the node; the node is rebuilt with the same kind only when a part changed; the arena is only extended |
| IncludeApplying.UnmarkedBindingUnchanged | src/EFCore/Query/NavigationExpansion/Visitors/IncludeApplyingVisitor.cs:23-33 | a binding whose node has no marked child is returned as it is, with the arena unchanged |
| VisitorBase.AsParameter | src/EFCore/Query/NavigationExpansion/Visitors/NavigationExpansionVisitorBase.cs:17 | the `(ParameterExpression)` cast succeeds exactly on parameters |
| VisitorBase.AsSelector | src/EFCore/Query/NavigationExpansion/Visitors/NavigationExpansionVisitorBase.cs:110 | the `(LambdaExpression)` cast succeeds exactly on one-parameter lambdas |
| VisitorBase.VisitExtension | src/EFCore/Query/NavigationExpansion/Visitors/NavigationExpansionVisitorBase.cs:13-104 | each handled extension kind comes back identical when its parts are unchanged; unknown kinds fail with InvalidOperation; a binding keeps its tree node, entity type, source mapping and type and only its root parameter is revisited |
| VisitorBase.VisitSelector | src/EFCore/Query/NavigationExpansion/Visitors/NavigationExpansionVisitorBase.cs:110 | a selector lambda is visited body first and cast back; unchanged parts give the same selector |
| VisitorBase.ReplaceOrderings | src/EFCore/Query/NavigationExpansion/Visitors/NavigationExpansionVisitorBase.cs:111-126 | keeps the number, order and methods of the orderings, reuses unchanged entries, and reports whether any key selector changed |
| VisitorBase.ReplaceOrderingsPrefixFailure | src/EFCore/Query/NavigationExpansion/Visitors/NavigationExpansionVisitorBase.cs:114-126 | a failure while visiting a prefix of the orderings is the failure of the whole loop |
| VisitorBase.ReplaceState | src/EFCore/Query/NavigationExpansion/Visitors/NavigationExpansionVisitorBase.cs:106-149 | a new state only when the current parameter, selector, an ordering or the include chain changed; source mappings, apply flag, cardinality operator, tags, custom roots and materialisation marker are copied |
| VisitorBase.ReplaceStateParts | src/EFCore/Query/NavigationExpansion/Visitors/NavigationExpansionVisitorBase.cs:106-149 | each part of a replaced state is the visit of the old part: the current parameter, the pending selector, the orderings through the loop, and the include chain |
| VisitorBase.VisitIncludeChain | src/EFCore/Query/NavigationExpansion/Visitors/NavigationExpansionVisitorBase.cs:128 | no chain stays none; a chain is replaced by its visit, which must be a binding |
| VisitorBase.ReplacePendingOrderings | src/EFCore/Query/NavigationExpansion/Visitors/NavigationExpansionVisitorBase.cs:111-126 | the loop with its `pendingOrderingsChanged` flag computes `ReplaceOrderings` |
| VisitorBase.DefaultVisitAvoids | src/EFCore/Query/NavigationExpansion/Visitors/NavigationExpansionVisitorBase.cs:13-104 | the default traversal builds its result only from what the callbacks return |
| VisitorBase.VisitExtensionAvoids | src/EFCore/Query/NavigationExpansion/Visitors/NavigationExpansionVisitorBase.cs:13-104 | so does `VisitExtension`: a parameter the callbacks never produce is absent from the result |
| VisitorBase.ReplaceStateAvoids | src/EFCore/Query/NavigationExpansion/Visitors/NavigationExpansionVisitorBase.cs:106-149 | so does the state replacement |
| ExpressionExtensions.UnwrapQuote | src/EFCore/Query/NavigationExpansion/ExpressionExtensions.cs:14-17 | a lambda is returned as is; a quoted lambda loses one quote; anything else fails the cast |
| ExpressionExtensions.UnwrapQuoteStripsOne | src/EFCore/Query/NavigationExpansion/ExpressionExtensions.cs:14-17 | exactly one quote is stripped: a twice-quoted lambda fails |
| ExpressionExtensions.MemberPositions | src/EFCore/Query/NavigationExpansion/ExpressionExtensions.cs:135 | exactly the positions of the member in the `new`'s member list |
| ExpressionExtensions.MatchingMemberIndexAsWritten | src/EFCore/Query/NavigationExpansion/ExpressionExtensions.cs:135 | a `new` without a member list fails with ArgumentNull; otherwise as `MatchingMemberIndex` |
| ExpressionExtensions.MatchingMemberIndex | src/EFCore/Query/NavigationExpansion/ExpressionExtensions.cs:133-139 | the position of the member when listed once, none when not listed or when there is no member list, an error when listed twice (`SingleOrDefault`) |
| ExpressionExtensions.MemberOfPlainNewFailsAsWritten | src/EFCore/Query/NavigationExpansion/ExpressionExtensions.cs:135 | reading a member of `new Foo(x)` fails as written and finds no member as intended |
| ExpressionExtensions.NoPosition | src/EFCore/Query/NavigationExpansion/ExpressionExtensions.cs:135 | a member that is not listed has no position |
| ExpressionExtensions.UniquePosition | src/EFCore/Query/NavigationExpansion/ExpressionExtensions.cs:135 | a member listed once has exactly that position |
| ExpressionExtensions.CombineParameter | src/EFCore/Query/NavigationExpansion/ExpressionExtensions.cs:112-115 | the source parameter becomes the replacement; any other parameter stays |
| ExpressionExtensions.Combine | src/EFCore/Query/NavigationExpansion/ExpressionExtensions.cs:112-145 | a parameter node becomes the replacement exactly when it is the source parameter; a member access reads the member from its substituted source, and fails when that substitution fails; a tree without the source parameter comes back unchanged; when the replacement does not mention the source parameter, neither does the result |
| ExpressionExtensions.CombineAndRemap | src/EFCore/Query/NavigationExpansion/ExpressionExtensions.cs:48-69 | fails with InvalidOperation when the source or the replacement is a lambda; otherwise the result is exactly the substitution `Combine` of the replacement for the parameter, so no occurrence of the parameter survives unless the replacement has one |
| ExpressionExtensions.CombineReadsProjectedMember | src/EFCore/Query/NavigationExpansion/ExpressionExtensions.cs:130-140 | a member read from the parameter, with a `new` listing that member once substituted for it, becomes the matching constructor argument |
| ExpressionExtensions.Lower | src/EFCore/Query/NavigationExpansion/ExpressionExtensions.cs:185 | lower-cases capitals and leaves every other character alone |
| ExpressionExtensions.UpperLetters | src/EFCore/Query/NavigationExpansion/ExpressionExtensions.cs:181 | every capital of the name and no other character, each as many times as the name has it; a leading capital comes first |
| ExpressionExtensions.UpperLettersAppend | src/EFCore/Query/NavigationExpansion/ExpressionExtensions.cs:181 | the capitals of a concatenation are the capitals of each part, in order, so the capitals keep the name's order |
| ExpressionExtensions.ToLower | src/EFCore/Query/NavigationExpansion/ExpressionExtensions.cs:185 | character-wise lower-casing, same length |
| ExpressionExtensions.GenerateParameterName | src/EFCore/Query/NavigationExpansion/ExpressionExtensions.cs:178-191 | the type name's capitals in order, lower-cased, when there is one; else the first character of the lower-cased name; never empty and never a capital |
| CollectionNavigationRewriting.ExtendsTransitive | src/EFCore/Query/NavigationExpansion/Visitors/CollectionNavigationRewritingVisitor.cs:143 | successive tree updates that only add nodes and children compose |
| CollectionNavigationRewriting.CreateExtends | src/EFCore/Query/NavigationExpansion/Visitors/CollectionNavigationRewritingVisitor.cs:552 | `Create` only adds nodes and children, or upgrades modes |
| CollectionNavigationRewriting.SetExpansionModeExtends | src/EFCore/Query/NavigationExpansion/Visitors/CollectionNavigationRewritingVisitor.cs:196 | marking a node expanded only changes its mode |
| CollectionNavigationRewriting.CreateKeyAccess | src/EFCore/Query/NavigationExpansion/Visitors/CollectionNavigationRewritingVisitor.cs:208-216 | a key read from the target, typed by the key properties and the null check |
| CollectionNavigationRewriting.AlignKeys | src/EFCore/Query/NavigationExpansion/Visitors/CollectionNavigationRewritingVisitor.cs:598-613 | equal key types are left alone; a nullable outer key gets the inner one converted to it; otherwise the outer is converted to the inner type; for compatible keys both sides end with the same type |
| CollectionNavigationRewriting.CreateKeyComparison | src/EFCore/Query/NavigationExpansion/Visitors/CollectionNavigationRewritingVisitor.cs:593-623 | always the pair (collection root not null, aligned outer key equal to inner key) |
| CollectionNavigationRewriting.IncludedChildPersists | src/EFCore/Query/NavigationExpansion/Visitors/CollectionNavigationRewritingVisitor.cs:548-555 | a marked child found once is still there after later tree updates |
| CollectionNavigationRewriting.CopyIncludes | src/EFCore/Query/NavigationExpansion/Visitors/CollectionNavigationRewritingVisitor.cs:548-555 | every child of the original marked as a pending reference include gets a copy under the new root, with the same navigation, marked for inclusion, and its own pending children copied below it, recursively (`IncludesCopied`); the new root gains no other child; nodes below the new root are left alone |
| CollectionNavigationRewriting.CopyChildren | src/EFCore/Query/NavigationExpansion/Visitors/CollectionNavigationRewritingVisitor.cs:550-554 | the loop over the children: each pending one is copied with its pending descendants (`AllCopied`), the copy gains a child only for a pending one (`GainsOnlyPending`), and nodes below the copy are left alone |
| CollectionNavigationRewriting.CopyChild | src/EFCore/Query/NavigationExpansion/Visitors/CollectionNavigationRewritingVisitor.cs:551-553 | a pending child gets a copy with `Create(..., include: true)` and its own pending children are copied below that copy; any other child leaves the arena unchanged |
| CollectionNavigationRewriting.CreateForInclude | src/EFCore/Query/NavigationExpansion/NavigationTreeNode.cs:130-166 | `Create(..., include: true)` returns a child of the parent, above it in the arena, marked for inclusion; the parent gains at most that one child and nodes below the parent are left alone |
| CollectionNavigationRewriting.CopiedChildPersists | src/EFCore/Query/NavigationExpansion/Visitors/CollectionNavigationRewritingVisitor.cs:548-555 | a copied include stays copied when the arena is only extended and nothing below the copy changes |
| CollectionNavigationRewriting.IncludesCopiedPersists | src/EFCore/Query/NavigationExpansion/Visitors/CollectionNavigationRewritingVisitor.cs:548-555 | all copied includes of a node stay copied under the same conditions |
| CollectionNavigationRewriting.SubqueryTree | src/EFCore/Query/NavigationExpansion/Visitors/CollectionNavigationRewritingVisitor.cs:139-146 | a fresh root with no navigation and one empty from-path; below it, a copy of each pending include of the collection node, with its pending descendants copied recursively, and no other child; the collection node marked expanded; nothing else changes |
| CollectionNavigationRewriting.CreateCollectionNavigationExpression | src/EFCore/Query/NavigationExpansion/Visitors/CollectionNavigationRewritingVisitor.cs:126-236 | `Where(<root over the dependent entity set>, inner => correlation)`: the root is `EntitySetRoot` over the node `SubqueryTree` adds, with the pending-selector parameter numbered next and the state exactly as built at lines 148-174; the correlation compares the owner's principal key (null checked iff the parent node is optional) with the foreign key read through the inner parameter, numbered next + 1 and named after the element type; the counter advances by two and the tree becomes `SubqueryTree` |
| CollectionNavigationRewriting.SubqueryElementType | src/EFCore/Query/NavigationExpansion/Visitors/CollectionNavigationRewritingVisitor.cs:128-129 | the subquery is a sequence of the navigation's target type |
| CollectionNavigationRewriting.RemoveMaterialize | src/EFCore/Query/NavigationExpansion/Visitors/CollectionNavigationRewritingVisitor.cs:120-124 | exactly one materialising wrapper is taken off; anything else is returned as is |
| CollectionNavigationRewriting.Rewrite | src/EFCore/Query/NavigationExpansion/Visitors/CollectionNavigationRewritingVisitor.cs:31-38 | parameters and constants are returned as is; a lambda has its body visited, succeeds whenever that visit does, and is rebuilt with the same parameters only when the body changed; calls, members and extension nodes go to their visit; any other node succeeds exactly when `RewriteAll` over its children does, and is rebuilt only when one changed; the tree is only extended |
| CollectionNavigationRewriting.RewriteAll | src/EFCore/Query/NavigationExpansion/Visitors/CollectionNavigationRewritingVisitor.cs:100-112 | no parts gives no results; otherwise the first part is visited in the given context (unwrapped when asked) and the rest in the context that visit leaves; it succeeds exactly when the first visit, its unwrapping and the rest succeed; a failed first visit fails the whole |
| CollectionNavigationRewriting.RewriteCall | src/EFCore/Query/NavigationExpansion/Visitors/CollectionNavigationRewritingVisitor.cs:40-118 | includes and plain SelectMany are left alone; SelectMany with a result selector has only that argument visited, and fails with fewer than three arguments; `List.Exists(p)` and `Contains(x)` on a collection binding become `Enumerable.Any`; any other call is visited part by part |
| CollectionNavigationRewriting.RewriteResultSelector | src/EFCore/Query/NavigationExpansion/Visitors/CollectionNavigationRewritingVisitor.cs:54-61 | only the result selector, the third argument, is visited: a failed visit is the failure, otherwise the call with that argument replaced when it changed (and `e` itself when not), in the context the visit leaves |
| CollectionNavigationRewriting.RewriteListExists | src/EFCore/Query/NavigationExpansion/Visitors/CollectionNavigationRewritingVisitor.cs:63-77 | `Enumerable.Any(<visited list, unwrapped>, <visited predicate's body over its first parameter>)` with no receiver, in the context the two visits leave; it fails without a list object or a predicate argument, and succeeds whenever both visits succeed, the predicate is a lambda and the list is a sequence |
| CollectionNavigationRewriting.RewriteContains | src/EFCore/Query/NavigationExpansion/Visitors/CollectionNavigationRewritingVisitor.cs:79-98 | `Enumerable.Any(<visited collection, unwrapped>, c => c == <visited argument>)`, `c` a fresh parameter named after the element type, the id counter advanced by one; it succeeds whenever both visits succeed and the collection is a sequence |
| CollectionNavigationRewriting.RewriteOtherCall | src/EFCore/Query/NavigationExpansion/Visitors/CollectionNavigationRewritingVisitor.cs:100-116 | the receiver is visited and unwrapped first, then every argument in the context it leaves; it succeeds exactly when those visits and unwrappings succeed; the call is rebuilt with the same method only when something changed |
| CollectionNavigationRewriting.RewriteMember | src/EFCore/Query/NavigationExpansion/Visitors/CollectionNavigationRewritingVisitor.cs:557-591 | the source is visited and unwrapped; an unchanged source keeps the node; a changed source of `Count` gives `Queryable.Count(<new source>)` of int type, any other member is read from the new source; it fails when the visit fails and succeeds otherwise unless a changed `Count` source is not a sequence |
| CollectionNavigationRewriting.RewriteExtension | src/EFCore/Query/NavigationExpansion/Visitors/CollectionNavigationRewritingVisitor.cs:374-546 | a collection binding becomes `Materialize(<subquery>, navigation)`; other bindings, includes, roots and unknown kinds are left alone; a correlation predicate, an expansion and a null-conditional node go to their own visit |
| CollectionNavigationRewriting.RewriteBinding | src/EFCore/Query/NavigationExpansion/Visitors/CollectionNavigationRewritingVisitor.cs:376-494 | a binding whose node has a parent and a collection navigation is materialised as a subquery; any other binding is returned as is; it never fails |
| CollectionNavigationRewriting.MaterializeBinding | src/EFCore/Query/NavigationExpansion/Visitors/CollectionNavigationRewritingVisitor.cs:376-494 | a collection binding becomes the materialising call over `CreateCollectionNavigationExpression` and the navigation constant |
| CollectionNavigationRewriting.RewriteCorrelation | src/EFCore/Query/NavigationExpansion/Visitors/CollectionNavigationRewritingVisitor.cs:497-509 | the null check, then the comparison in the context it leaves, are visited; it succeeds exactly when both visits succeed and the visited comparison is still binary; the node is rebuilt only when one changed |
| CollectionNavigationRewriting.RewriteExpansion | src/EFCore/Query/NavigationExpansion/Visitors/CollectionNavigationRewritingVisitor.cs:525-532 | only the operand is visited; a failed visit is the result; the node is rebuilt with the same state and return type only when the operand changed |
| CollectionNavigationRewriting.RewriteNullConditional | src/EFCore/Query/NavigationExpansion/Visitors/CollectionNavigationRewritingVisitor.cs:534-543 | the caller, then the access in the context it leaves, are visited; it succeeds exactly when both visits succeed; a failed visit fails the node; it is rebuilt only when one changed |
| CollectionNavigationRewriting.RewriteAllKeepsLeaves | src/EFCore/Query/NavigationExpansion/Visitors/CollectionNavigationRewritingVisitor.cs:100-112 | arguments that are all parameters or constants come back unchanged, with the context untouched |
| CollectionNavigationRewriting.CollectionBindingUnwraps | src/EFCore/Query/NavigationExpansion/Visitors/CollectionNavigationRewritingVisitor.cs:376-494 | a collection binding is rewritten to a materialised subquery that unwraps to `CreateCollectionNavigationExpression`, a sequence of the dependent type, different from the binding |
| CollectionNavigationRewriting.CountOfRewrittenSource | src/EFCore/Query/NavigationExpansion/Visitors/CollectionNavigationRewritingVisitor.cs:557-588 | `x.Count` over a source that rewrites to a different collection becomes `Queryable.Count(<new source>)` |
| CollectionNavigationRewriting.CountOfCollectionNavigation | src/EFCore/Query/NavigationExpansion/Visitors/CollectionNavigationRewritingVisitor.cs:557-588 | `b.Count` over a collection navigation binding becomes `Queryable.Count` of its correlated subquery |
| NavigationExpansion.RewritePendingSelector | src/EFCore/Query/NavigationExpansion/NavigationExpansionExpression.cs:131-141 | succeeds iff the include search and the include rewrite of the selector body both do; the found includes are the search's; the state changes only when the body changed, and then the selector is applied |
| NavigationExpansion.JoinFold | src/EFCore/Query/NavigationExpansion/NavigationExpansionExpression.cs:145-157 | the fold of `AddNavigationJoin` over the found includes keeps the arena well formed; its shape is stated by `JoinFoldLast` |
| NavigationExpansion.JoinFoldLast | src/EFCore/Query/NavigationExpansion/NavigationExpansionExpression.cs:146-157 | the fold's result is the last join applied to the fold of all but the last |
| NavigationExpansion.AddJoins | src/EFCore/Query/NavigationExpansion/NavigationExpansionExpression.cs:143-177 | with no includes the operand and state are unchanged; otherwise the operand is the joined source, the current parameter is the last join's parameter, the selector is applied and remapped to it |
| NavigationExpansion.ApplyIncludesSpec | src/EFCore/Query/NavigationExpansion/NavigationExpansionExpression.cs:129-181 | succeeds iff the selector rewrite does; the result is the joins applied to the rewritten state |
| NavigationExpansion.ApplyIncludesEffects | src/EFCore/Query/NavigationExpansion/NavigationExpansionExpression.cs:129-181 | the selector is applied iff the rewrite changed it or an include was found; with neither, operand and state are unchanged |
| NavigationExpansion.AddJoinsLastParameter | src/EFCore/Query/NavigationExpansion/NavigationExpansionExpression.cs:158-163 | the new current parameter is the last join's parameter |
| NavigationExpansion.OrderingLayer | src/EFCore/Query/NavigationExpansion/NavigationExpansionExpression.cs:55-59 | the ordering method applied to a lambda over the current parameter whose body is the remapped, unbound key selector |
| NavigationExpansion.OrderingLayers | src/EFCore/Query/NavigationExpansion/NavigationExpansionExpression.cs:53-60 | one ordering call per pending ordering, in list order |
| NavigationExpansion.OrderingsInOrder | src/EFCore/Query/NavigationExpansion/NavigationExpansionExpression.cs:53-60 | applying the orderings wraps the result in exactly those calls, in list order |
| NavigationExpansion.SelectMethodFor | src/EFCore/Query/NavigationExpansion/NavigationExpansionExpression.cs:67-71 | Enumerable.Select exactly when the result type is `IEnumerable<>` or `IOrderedEnumerable<>`, Queryable.Select otherwise |
| NavigationExpansion.SelectStep | src/EFCore/Query/NavigationExpansion/NavigationExpansionExpression.cs:62-73 | no call when the selector is not applied; otherwise one select call with the unbound selector |
| NavigationExpansion.TagLayers | src/EFCore/Query/NavigationExpansion/NavigationExpansionExpression.cs:75-82 | one `TagWith` per tag, in list order |
| NavigationExpansion.ApplyTags | src/EFCore/Query/NavigationExpansion/NavigationExpansionExpression.cs:75-82 | the result wrapped in one `TagWith` per tag, in order; no tags, no change |
| NavigationExpansion.MaterializedEntityType | src/EFCore/Query/NavigationExpansion/NavigationExpansionExpression.cs:93-95 | the navigation CLR type's first generic argument when generic, else the target entity type |
| NavigationExpansion.MaterializedEntityTypeIsTarget | src/EFCore/Query/NavigationExpansion/NavigationExpansionExpression.cs:93-95 | for a collection navigation typed as a generic sequence of its target both choices agree |
| NavigationExpansion.AdapterLayers | src/EFCore/Query/NavigationExpansion/NavigationExpansionExpression.cs:105-124 | none when the type already matches or is not generic; `ToOrderedQueryable` for `IOrderedQueryable<>`, `ToOrderedEnumerable` for `IOrderedEnumerable<>`, a Convert for `IIncludableQueryable<,>` |
| NavigationExpansion.AdapterReachesReturnType | src/EFCore/Query/NavigationExpansion/NavigationExpansionExpression.cs:105-124 | after the adapter the result has the declared return type |
| NavigationExpansion.ApplyPendingWork | src/EFCore/Query/NavigationExpansion/NavigationExpansionExpression.cs:42-126 | with nothing pending the operand left by the includes is returned as it is; pending work on a result whose type is not a sequence fails |
| NavigationExpansion.ReduceSpec | src/EFCore/Query/NavigationExpansion/NavigationExpansionExpression.cs:36-127 | includes are applied first, then the pending work on the state they leave |
| NavigationExpansion.ReduceOrder | src/EFCore/Query/NavigationExpansion/NavigationExpansionExpression.cs:53-124 | the calls appear in the fixed order orderings, select, tags, cardinality operator, materialisation, adapter |
| NavigationExpansion.ExpansionExpression.constructor | src/EFCore/Query/NavigationExpansion/NavigationExpansionExpression.cs:20-28 | keeps the operand, state and return type given |
| NavigationExpansion.ExpansionExpression.ApplyIncludes | src/EFCore/Query/NavigationExpansion/NavigationExpansionExpression.cs:129-181 | computes `ApplyIncludesSpec`, overwriting the state's selector in place as the source does |
| NavigationExpansion.AddIncludeJoins | src/EFCore/Query/NavigationExpansion/NavigationExpansionExpression.cs:143-177 | the loop of joins over the pending includes, then the selector moved to the last join's parameter, computes `AddJoins` |
| NavigationExpansion.ExpansionExpression.Reduce | src/EFCore/Query/NavigationExpansion/NavigationExpansionExpression.cs:36-127 | computes `ReduceSpec` and leaves the state the includes produced |
| NavigationExpansion.AddPendingWork | src/EFCore/Query/NavigationExpansion/NavigationExpansionExpression.cs:42-126 | the step-by-step reassignment of `result` computes `ApplyPendingWork` |
| NavigationExpansion.AddSelect | src/EFCore/Query/NavigationExpansion/NavigationExpansionExpression.cs:62-73 | computes `SelectStep`: when the state applies its pending selector, the unbound selector is appended as the `Select` the source's type calls for, and a selector that is not a lambda fails; otherwise the result is unchanged |
| NavigationExpansion.AddOrderings | src/EFCore/Query/NavigationExpansion/NavigationExpansionExpression.cs:53-60 | the loop over the orderings computes `ApplyOrderings` |
| NavigationExpansion.AddTags | src/EFCore/Query/NavigationExpansion/NavigationExpansionExpression.cs:75-82 | the loop over the tags computes `ApplyTags` |
| NavigationExpansion.AddFinalCalls | src/EFCore/Query/NavigationExpansion/NavigationExpansionExpression.cs:84-126 | the cardinality operator, the materialisation and the adapter, in that order |
| NavigationExpansion.AddAdapter | src/EFCore/Query/NavigationExpansion/NavigationExpansionExpression.cs:105-126 | the adapter `AdapterLayers` chooses |
| NavigationExpansion.Print | src/EFCore/Query/NavigationExpansion/NavigationExpansionExpression.cs:183-198 | exactly the operand's text, then `.PendingSelect(<selector>)` when the selector is applied, then `.Pending<operator>` when an operator is pending |
| NavigationExpansion.ToOrderedQueryable | src/EFCore/Query/NavigationExpansion/NavigationExpansionExpression.cs:200-201 | wraps the source in the ordered-queryable adapter |
| NavigationExpansion.ToOrderedEnumerable | src/EFCore/Query/NavigationExpansion/NavigationExpansionExpression.cs:225-226 | wraps the source in the ordered-enumerable adapter |
| NavigationExpansion.CreateOrderedEnumerable | src/EFCore/Query/NavigationExpansion/NavigationExpansionExpression.cs:237-240 | `OrderByDescending` iff descending, else `OrderBy` |
| NavigationExpansion.AdaptersDelegate | src/EFCore/Query/NavigationExpansion/NavigationExpansionExpression.cs:200-247 | both adapters enumerate exactly as their source; a further ordering sorts the source's elements by the key in the requested direction |
| ExpansionReducing.IncludeCall | src/EFCore/Query/NavigationExpansion/Visitors/NavigationExpansionReducingVisitor.cs:31-44 | a call to `IncludeMethod` on the entity type taking the entity, the navigation expression and the navigation constant |
| ExpansionReducing.PathReduced | src/EFCore/Query/NavigationExpansion/Visitors/NavigationExpansionReducingVisitor.cs:22-28 | a chain of property accesses on a parameter contains no navigation-expansion node |
| ExpansionReducing.Reduce | src/EFCore/Query/NavigationExpansion/Visitors/NavigationExpansionReducingVisitor.cs:10-52 | a success contains no navigation-expansion node; a binding becomes its root parameter followed by its node's to-path; unknown extensions fail; parameters, constants and custom roots are returned as is; the dispatch to each case is stated by `ReduceDispatch` and `ReduceExtensionDispatch` |
| ExpansionReducing.ReduceDispatch | src/EFCore/Query/NavigationExpansion/Visitors/NavigationExpansionReducingVisitor.cs:10-44 | a binding outside the arena fails; a correlation predicate and any non-extension go to `ReduceParts`; an include goes to `ReduceInclude` |
| ExpansionReducing.ReduceExtensionDispatch | src/EFCore/Query/NavigationExpansion/Visitors/NavigationExpansionReducingVisitor.cs:46-51 | an expansion root reduces its unwrapped expansion; expansions, null-conditional nodes, custom roots and unknown kinds go to `ReduceExtension` |
| ExpansionReducing.ReduceCorrelationSteps | src/EFCore/Query/NavigationExpansion/Visitors/NavigationExpansionReducingVisitor.cs:12-20 | succeeds exactly when the null check, then the equality in the context it leaves, reduce and the equality stays binary; the node is rebuilt only when a part changed |
| ExpansionReducing.ReduceStandardNode | src/EFCore/Query/NavigationExpansion/Visitors/NavigationExpansionReducingVisitor.cs:51 | a failed part fails the node; otherwise the node is rebuilt over the reduced parts only when one changed, in the context the last part leaves |
| ExpansionReducing.ReduceParts | src/EFCore/Query/NavigationExpansion/Visitors/NavigationExpansionReducingVisitor.cs:12-20 | parameters and constants stay; a correlation predicate stays a correlation predicate over a binary comparison; the result contains no navigation-expansion node; the per-part visits and the rebuild on change are stated by `ReduceCorrelationSteps` and `ReduceStandardNode` |
| ExpansionReducing.ReduceInclude | src/EFCore/Query/NavigationExpansion/Visitors/NavigationExpansionReducingVisitor.cs:31-44 | an include becomes the `IncludeMethod` call over the reduced entity and navigation expression |
| ExpansionReducing.ReduceExtension | src/EFCore/Query/NavigationExpansion/Visitors/NavigationExpansionReducingVisitor.cs:46-51 | an expansion succeeds iff fuel is left and both its own reduction and the reduction of that result succeed, and is then that second reduction; kinds other than null-conditional and custom root fail; the null-conditional visits and the custom root are stated by `ReduceExtensionSteps` |
| ExpansionReducing.ReduceExtensionSteps | src/EFCore/Query/NavigationExpansion/Visitors/NavigationExpansionReducingVisitor.cs:46-51 | an expansion with no fuel left fails; a custom root is kept; a null-conditional node succeeds exactly when its caller, then its access in the context that leaves, reduce, and is rebuilt only when one changed |
| ExpansionReducing.BindingReadsBack | src/EFCore/Query/NavigationExpansion/Visitors/NavigationExpansionReducingVisitor.cs:22-28 | the reduced binding reads back as its root parameter and exactly its node's to-path |
| ExpansionReducing.ReducedUnchanged | src/EFCore/Query/NavigationExpansion/Visitors/NavigationExpansionReducingVisitor.cs:10-52 | an expression with no navigation-expansion node is returned identical |
| ExpansionReducing.Idempotent | src/EFCore/Query/NavigationExpansion/Visitors/NavigationExpansionReducingVisitor.cs:10-52 | reducing a reduced expression changes nothing |
| ExpansionReducing.CorrelationPredicateKept | src/EFCore/Query/NavigationExpansion/Visitors/NavigationExpansionReducingVisitor.cs:12-20 | an unchanged correlation predicate is returned as the same node |
| ExpansionReducing.RootUnwrapped | src/EFCore/Query/NavigationExpansion/Visitors/NavigationExpansionReducingVisitor.cs:46-49 | an expansion root reduces as the expansion it wraps |
| NavigationExpanding.CollectionComparand | src/EFCore/Query/NavigationExpansion/Visitors/NavigationExpandingVisitor.cs:267-296 | a member access of sequence type on an entity type that declares a navigation of that name: that navigation and the accessed entity |
| NavigationExpanding.CreateNullKey | src/EFCore/Query/NavigationExpansion/Visitors/NavigationExpandingVisitor.cs:356-358 | a null key of the given type and key count |
| NavigationExpanding.PendingBinding | src/EFCore/Query/NavigationExpansion/Visitors/NavigationExpandingVisitor.cs:332-345 | the binding an expansion with a pending cardinality operator selects, and only then |
| NavigationExpanding.Keyed | src/EFCore/Query/NavigationExpansion/Visitors/NavigationExpandingVisitor.cs:360-375 | the expansion selecting the key instead; everything else in its state kept and the selector applied |
| NavigationExpanding.CompareWithNullKeys | src/EFCore/Query/NavigationExpansion/Visitors/NavigationExpandingVisitor.cs:329-416 | a pending single result compared with null becomes its null-checked primary key compared with a null key of the same type and key count, on either side; the operator is kept |
| NavigationExpanding.CollectionRewrite | src/EFCore/Query/NavigationExpansion/Visitors/NavigationExpandingVisitor.cs:262-323 | only for `==` and `!=`: two sides that are the same collection navigation compare their parents; a collection navigation compared with null compares its parent with null; the operator is kept and the node shrinks |
| NavigationExpanding.Visit | src/EFCore/Query/NavigationExpansion/Visitors/NavigationExpandingVisitor.cs:24-52 | bindings, custom roots, expansion roots, includes, expansions and parameters come back unchanged; unknown extensions fail; a binary node keeps its operator; every arena returned is well formed |
| NavigationExpanding.VisitBinary | src/EFCore/Query/NavigationExpansion/Visitors/NavigationExpandingVisitor.cs:257-420 | the collection rewrites are visited in place of the comparison; otherwise both sides are visited in order and the null-key rewrite applied to an equality; the operator is kept; for any other operator see `VisitBinarySides` |
| NavigationExpanding.VisitBinarySides | src/EFCore/Query/NavigationExpansion/Visitors/NavigationExpandingVisitor.cs:257-419 | an operator other than equality with no collection rewrite succeeds exactly when both sides, visited in order, do; the node keeps its operator and is rebuilt only when a side changed |
| NavigationExpanding.VisitMember | src/EFCore/Query/NavigationExpansion/Visitors/NavigationExpandingVisitor.cs:227-237 | pushdown happens exactly when the visited object is an expansion with a pending cardinality operator; otherwise the access keeps its member and type, over a second visit of the source (see `VisitMemberRevisits`) |
| NavigationExpanding.VisitMemberRevisits | src/EFCore/Query/NavigationExpansion/Visitors/NavigationExpandingVisitor.cs:227-237 | without pushdown, the base visit revisits the source: it succeeds exactly when that second visit does, and the access is rebuilt over it only when it changed |
| NavigationExpanding.WidenForOrDefault | src/EFCore/Query/NavigationExpansion/Visitors/NavigationExpandingVisitor.cs:71-84 | after one of the eight `...OrDefault` operators the selector body has a nullable type; otherwise it is unchanged |
| NavigationExpanding.PushdownSelector | src/EFCore/Query/NavigationExpansion/Visitors/NavigationExpandingVisitor.cs:62-84 | a fresh parameter named as the current parameter and typed as the expansion, reading the member or `EF.Property`, widened after an `...OrDefault` operator |
| NavigationExpanding.PushdownResult | src/EFCore/Query/NavigationExpansion/Visitors/NavigationExpandingVisitor.cs:202-224 | the expansion selecting the bound body, converted to the member's type when the types differ: its type is always the member's type |
| NavigationExpanding.ProcessMemberPushdown | src/EFCore/Query/NavigationExpansion/Visitors/NavigationExpandingVisitor.cs:54-225 | a selector ending at a collection navigation becomes a correlated subquery; at a reference navigation `ProcessSelectCore`; otherwise the expansion selects the bound body |
| NavigationExpanding.LastNavigation | src/EFCore/Query/NavigationExpansion/Visitors/NavigationExpandingVisitor.cs:94-96 | the navigation of the tree node a selector body bound to a node in the arena ends at; nothing when the body is not a binding |
| NavigationExpanding.CollectionPushdown | src/EFCore/Query/NavigationExpansion/Visitors/NavigationExpandingVisitor.cs:98-191 | the correlated filter wrapped in a fresh expansion over a new root |
| NavigationExpanding.CorrelatedFilter | src/EFCore/Query/NavigationExpansion/Visitors/NavigationExpandingVisitor.cs:98-153 | the principal key read through a fresh inner parameter is combined with the pending selector; a failure there is the result, otherwise the result is `KeyFilter` over the combined key and the foreign key read through a fresh outer parameter; on success, `Where(<dependent entity set>, outer => <foreign key> == <reduced>)` |
| NavigationExpanding.KeyFilter | src/EFCore/Query/NavigationExpansion/Visitors/NavigationExpandingVisitor.cs:118-153 | the two keys are aligned to a common type, the expansion selecting the aligned inner key is reduced, and the result is `Where(<entity set>, outer => <aligned outer key> == <reduced>)`; a failed reduction is the result |
| NavigationExpanding.WhereKeysEqual | src/EFCore/Query/NavigationExpansion/Visitors/NavigationExpandingVisitor.cs:145-153 | the `Where` call over the entity set of the parameter's type with the key equality as predicate |
| NavigationExpanding.KeySelecting | src/EFCore/Query/NavigationExpansion/Visitors/NavigationExpandingVisitor.cs:130-142 | the expansion selecting the key from its current parameter, with the materialisation dropped |
| NavigationExpanding.EntityRootExpansion | src/EFCore/Query/NavigationExpansion/Visitors/NavigationExpandingVisitor.cs:155-190 | an expansion with nothing pending over a new root for the entity type, selecting its binding |
| NavigationExpanding.SameCollectionComparedThroughParents | src/EFCore/Query/NavigationExpansion/Visitors/NavigationExpandingVisitor.cs:298-305 | visiting a comparison of the same collection navigation is visiting the comparison of the parents |
| NavigationExpanding.CollectionComparedWithNull | src/EFCore/Query/NavigationExpansion/Visitors/NavigationExpandingVisitor.cs:307-323 | visiting a collection navigation compared with null, on either side, is visiting its parent compared with null |
| NavigationExpanding.PushdownWidensAfterOrDefault | src/EFCore/Query/NavigationExpansion/Visitors/NavigationExpandingVisitor.cs:62-84 | after an `...OrDefault` operator a member of non-nullable type is read through a Convert to its nullable type |
| NavigationExpanding.VisitParts | src/EFCore/Query/NavigationExpansion/Visitors/NavigationExpandingVisitor.cs:50 | the default traversal of the remaining kinds: every arena it returns is well formed |
| NavigationExpanding.VisitAll | src/EFCore/Query/NavigationExpansion/Visitors/NavigationExpandingVisitor.cs:50 | one visited part per part; every arena returned is well formed |
| ExpansionReducing.ReduceAll | src/EFCore/Query/NavigationExpansion/Visitors/NavigationExpansionReducingVisitor.cs:51 | one reduced part per part, each free of navigation-expansion nodes; the threading of the context from part to part is stated by `ReduceAllSteps` |
| ExpansionReducing.ReduceAllSteps | src/EFCore/Query/NavigationExpansion/Visitors/NavigationExpansionReducingVisitor.cs:51 | no parts gives no results; otherwise it succeeds exactly when the first part and then the rest in the context it leaves reduce, the first result is the first part's reduction and the rest is the tail's |
| IncludeApplying.RewriteIncludesAll | src/EFCore/Query/NavigationExpansion/Visitors/IncludeApplyingVisitor.cs:50 | no parts gives no results; otherwise the first part is visited in the given context and the rest in the context it leaves; it succeeds exactly when the first visit and the rest succeed; a failed first visit fails the whole; the arena is only extended |

## Left out

- Helpers defined outside this stage are collaborators, not code:
  - `AddNavigationJoin`;
  - `ExpressionReplacingVisitor`;
  - `NavigationPropertyBindingVisitor` and `NavigationPropertyUnbindingVisitor`;
  - `ProcessSelectCore`;
  - the `VisitMethodCall` and `VisitConstant` overrides of `NavigationExpandingVisitor`, which live in other partial-class files.

  The model states what it assumes of each, for example that it keeps the arena well formed, and nothing more.
- `CreateKeyAccessExpression` and `CreateNullKeyExpression` are symbolic calls. The type of a key is a stand-in computed from the key properties, because the key classes are not part of this model.
- `BuildPropertyAccess` is modelled as the chain of `Expression.Property` nodes over the to-path.
- `IncludeHelpers.IncludeMethod`, reflection, `MakeGenericMethod` and `IModel` lookups are modelled as identifiers and a metadata record. Their own behaviour is not part of this model.
- `NavigationExpansionRootExpression.Unwrap` is not part of this model. It is taken to return the wrapped navigation-expansion expression.
- Query execution is left out. The ordered adapters are modelled only as delegating enumeration and sorting. Element comparers are folded into an integer key.
- `ExpressionPrinter` internals are left out. NavigationExpansion.Print takes the printing of its operand and selector as a parameter. NavigationBinding.Print prints the root parameter as its name (`PrintParameter`), which is what the printer shows for a named parameter.
- The argument validation and type checks inside `Expression.Call`, `Expression.Convert` and `Expression.Equal` are left out, and so are the exceptions they throw.
- The commented-out code and the unused `CreateCollectionNavigationExpression2` in `CollectionNavigationRewritingVisitor.cs` are left out.
- `ShapedQueryExpressionVisitor.cs` is not part of this model.
- ExpansionReducing.Reduce: the recursion through a navigation-expansion node nested in another carries fuel. When the fuel runs out the model reports an error the source does not have.
- A binding whose tree node lies outside the arena cannot be built by the source, because a binding holds the node itself. The model has to say something for that input, and each module says it in its own way:
  - ExpansionReducing.Reduce reports an error;
  - IncludeApplying.RewriteBinding returns the binding unchanged;
  - IncludeApplying.FindInExpr adds nothing;
  - CollectionNavigationRewriting treats the binding as one that is not a collection navigation;
  - NavigationExpanding.LastNavigation gives none.
- The navigation-expansion state is a value in the model. In the source the state object is shared by reference: `CollectionNavigationRewritingVisitor.cs:530` puts the same `State` into the rebuilt node. The in-place overwrite of the pending selector in `ApplyIncludes` is therefore also seen by every other node that shares that state object. The model does not capture this aliasing.
- ExpressionExtensions.Combine: reading a member out of a `new` uses the corrected lookup `MatchingMemberIndex`, not the lookup as written (`ExpressionExtensions.cs:135`). For a `new` without a member list, such as `new Foo(x)`, the lookup as written throws `ArgumentNullException`. That lookup is modelled separately, as `MatchingMemberIndexAsWritten`, and the difference is recorded under Findings.
- ExpressionExtensions.GenerateParameterName: capitals and lower-casing are ASCII only, because culture-aware casing is not modelled.
- The members `ExpansionMode.Complete` and `IncludeMode.Pending` are used by the source but not declared in the enums shown. They are modelled as `ReferenceComplete` and `ReferencePending`.
- NavigationExpansion.JoinFold: the shape of each join is the collaborator's. The model proves only that the arena stays well formed and how the last join relates to the others.
- IncludeApplying.RewriteIncludesParts: the base traversal of a correlation predicate, an include and a null-conditional node is written out again here rather than taken from VisitorBase.VisitExtension, because the include rewriter threads the arena and the parameter counter through its visits and VisitorBase.VisitExtension takes a visit without that context. The two agree part for part, including the cast of a correlation predicate's comparison.
- ExpansionReducing.ReduceExtension: the checks that `Expression.ReduceAndCheck` makes when the base visit of an extension node reduces it are not modelled: a reduction to null, to the same node, or to a node whose type cannot be assigned to the original type throws `ArgumentException` in the source, while the model reduces the node's parts directly.
- NavigationExpanding.CompareWithNullKeys: an entity type without a primary key is not modelled. `FindPrimaryKey()` returns null for such a type and `NavigationExpandingVisitor.cs:353` and `:385` then throw `NullReferenceException`; the model's `EntityType` always carries a key sequence, so the key access is always built.
- NavigationExpanding.VisitParts and NavigationExpanding.VisitAll: the default traversal of ordinary nodes inside the expanding visitor promises only a well-formed arena and the number of parts. The visitor's method-call handling is a collaborator.

## Findings

| source | as written | input that shows it | evidently intended | confidence | as-written member | corrected member |
|---|---|---|---|---|---|---|
| src/EFCore/Query/NavigationExpansion/ExpressionExtensions.cs:135 | reads `newExpression.Members.Select(...)`; `Members` is null for a `new` without member initialisers, so the call throws `ArgumentNullException` | `p.Bar` combined with `new Foo(x)` | no matching member, so substitution continues as for any other member access | not executed | ExpressionExtensions.MatchingMemberIndexAsWritten | ExpressionExtensions.MatchingMemberIndex |
