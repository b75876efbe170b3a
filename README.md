# File-explorer row renderer: decision logic

This project models the decision logic of the row renderer of a
drag-and-drop tree view (`FileThemeNodeContentRenderer` in
`node-content-renderer.js`). The markup is reduced to a record of the
decisions a row depends on:

- the descendant test `isDescendant`, which dims the rows below the node
  being dragged;
- the indentation scaffold built by a loop, one line-children block per
  ancestor level and then one line block;
- the icon letter chosen from the node's `classname`;
- the expand/collapse button or the leaf icon;
- the row's style classes: landing pad, cancel pad, search match and
  focus, the caller's class name and the drag-disabled variants;
- the row's opacity, including the override by an `opacity` in the
  caller's `style`;
- the title shown;
- whether the row is wrapped as a drag source.

Module `TreeNode` (`tree_node.dfy`) holds the node datatype and the
descendant test. Module `NodeContentRenderer` (`node_content_renderer.dfy`)
holds the rest.

Modelling choices:

- A node's `children` is `Absent` (any falsy value), `Lazy(arity)` (a loader
  function) or `List(nodes)`. JavaScript's `length` of a function is the
  number of its parameters before the first default or rest parameter, and
  the renderer reads `children.length` to choose between the toggle and the
  leaf icon. So a lazy loader whose `length` is 0 gets the leaf icon, and one
  with positive `length` gets the toggle.
- The renderer compares nodes with `===`, which is reference identity. The
  model gives each node an `id` and compares ids. `UniqueIds(root)` says that
  no two positions of a tree share an id, as with one object per position.
  `IdentifiedIn(root, n)` says that the node of the tree that carries `n`'s id
  is `n` itself. Transitivity and irreflexivity are proved under these
  assumptions.
- `NodeAt` follows a path of child indices. `Reaches` ("some node at a
  non-empty path has the identity") is the reference definition that
  `IsDescendant` is proved equal to.
- Style classes are abstract tokens. The caller's `className` is one token
  `Custom(className)`, added only when it is non-empty.
- Pixel widths are `real` values copied through unchanged. With an empty
  path the loop runs zero times and the scaffold is the single line block.
- A title that is a function is the opaque tag `RenderFn(renderer)`. Other
  renderable elements are `Element(tag)`. Calling a title function is
  recorded as `Invoked(renderer, node, path, treeIndex)`.
- `toggleChildrenVisibility` appears only as the flag `hasToggle`, meaning a
  callback was supplied.

## Model

| member | source | states |
|---|---|---|
| `TreeNode.IsDescendant` | node-content-renderer.js:5-13 | if the result is true, the node has a non-empty concrete child list; a child carrying `younger`'s identity makes it true |
| `TreeNode.NodeAt` | node-content-renderer.js:9-10 | the empty path gives the node itself; a non-empty path can only be followed through a concrete list and a valid index |
| `TreeNode.NodeAtConcat` | node-content-renderer.js:9-10 | following `p` and then `q` is the same as following `p + q` |
| `TreeNode.IsDescendantIffReaches` | node-content-renderer.js:5-13 | `isDescendant(older, younger)` holds exactly when some node at a non-empty child path below `older` has `younger`'s identity |
| `TreeNode.ChildIsDescendant` | node-content-renderer.js:9-10 | a member of the concrete child list is a descendant |
| `TreeNode.NoListNoDescendants` | node-content-renderer.js:7-8 | absent children or a lazy loader function give false, whatever `younger` is |
| `TreeNode.DescendantTransitive` | node-content-renderer.js:5-13 | if b is a descendant of a and c of b, then c is a descendant of a, provided b is the node of a's tree with b's identity |
| `TreeNode.UniqueIdsIdentify` | node-content-renderer.js:10 | in a tree with unique identities, comparing ids identifies each node of the tree, as `===` does |
| `TreeNode.NotOwnDescendant` | node-content-renderer.js:9-11 | in a tree with unique identities, no node is its own descendant |
| `TreeNode.DescendantAsymmetric` | node-content-renderer.js:5-13 | of two nodes of a tree with unique identities, at most one is a descendant of the other |
| `NodeContentRenderer.IconChar` | node-content-renderer.js:79-109 | the letter is the one in the fixed table (compound C, study S, reporting-effort R, table T, listing L, graph G, column-layout C, footnote-group F); any other or missing classname gives ""; the result has at most one character |
| `NodeContentRenderer.BuildScaffold` | node-content-renderer.js:54-76 | the loop builds `path.length - 1` line-children blocks and then exactly one line block (length 1 for an empty path); widths are copied unchanged and the line block's left offset is the width |
| `NodeContentRenderer.Opt` | node-content-renderer.js:166-173 | one conditional class term: the class is present exactly when its condition holds, and nothing else is |
| `NodeContentRenderer.AppendIf` | node-content-renderer.js:166-173 | a class list extended by one conditional term (the step of the ordering proof) holds exactly the old classes plus the class when its condition holds; the leading class is kept |
| `NodeContentRenderer.AppendIfInOrder` | node-content-renderer.js:166-173 | appending a class that ranks after all present ones keeps the class order |
| `NodeContentRenderer.RowClasses` | node-content-renderer.js:165-174 | the row class is first; landing pad (flag of line 52) exactly when dragging and not dropped; cancel pad exactly when landing pad and drop refused, so never without the landing pad; search match and focus exactly when their flags are set; the caller's class exactly when non-empty |
| `NodeContentRenderer.RowClassesInOrder` | node-content-renderer.js:165-174 | the row's classes follow the fixed order row, landing pad, cancel pad, search match, search focus, caller class, with each at most once |
| `NodeContentRenderer.DragAwareClasses` | node-content-renderer.js:154-184 | the wrapper and contents classes get their drag-disabled variant exactly when `canDrag` is false |
| `NodeContentRenderer.Opacity` | node-content-renderer.js:176 | (flag of line 51) opacity is 0.5 exactly when a dragged node is given and the row's node is reachable below it, otherwise 1 |
| `NodeContentRenderer.StyledOpacity` | node-content-renderer.js:175-178 | the caller's `style` is spread after the computed opacity: an `opacity` in it replaces the computed value, otherwise the computed value is kept |
| `NodeContentRenderer.DraggedRowNotDimmed` | node-content-renderer.js:176 | the dragged node's own row has computed opacity 1 when identities in its tree are unique |
| `NodeContentRenderer.ChildRowDimmed` | node-content-renderer.js:176 | the rows of the dragged node's children have computed opacity 0.5 (dimmed) |
| `NodeContentRenderer.DimmingInherited` | node-content-renderer.js:176 | a child of a node of the dragged tree whose computed opacity is 0.5 has computed opacity 0.5 too |
| `NodeContentRenderer.ChildrenLength` | node-content-renderer.js:115-137 | `node.children.length` as both control tests read it: the list length for a list, the loader's `length` for a function; zero exactly for an empty list or a loader of length 0 |
| `NodeContentRenderer.Controls` | node-content-renderer.js:113-152 | without a toggle callback there is no control; with one there is exactly one control: the toggle when the children have positive length (collapse when expanded, expand otherwise), else the leaf icon with the classname's letter |
| `NodeContentRenderer.Truthy` | node-content-renderer.js:49 | the truthiness tested by the fallback from the `title` prop to `node.title`: only a missing title and the empty string are falsy |
| `NodeContentRenderer.DisplayedTitle` | node-content-renderer.js:198-204 | the title chosen at line 49: a truthy title prop wins over the node's title; a render function is invoked with the row's node, path and tree index; any other title is shown as it is |
| `NodeContentRenderer.WrapForDrag` | node-content-renderer.js:226-228 | the row is wrapped as a drag source, with drop effect "copy", exactly when `canDrag` is true, and its content is unchanged |
| `NodeContentRenderer.Render` | node-content-renderer.js:17-229 | the rendered row is made of the decisions above: the scaffold, the controls, the classes, the opacity (the caller's style opacity if given, else the dimming rule), the title and the drag-source choice |

## Left out

- JSX and React element construction, the `Component` class machinery and the `propTypes`/`defaultProps` tables (node-content-renderer.js:232-285): framework concerns. The defaults matter only through the inputs they supply (for example `className` is "" and `toggleChildrenVisibility` is absent).
- `connectDragPreview`, `connectDragSource` and the `toggleChildrenVisibility` click callback: calls into the drag-and-drop library and the caller. The model records only the decision to wrap and the drop effect.
- Calling a title render function: caller-supplied code, modelled as the opaque `Invoked` record of what it is called with.
- The button's pixel offset `(lowerSiblingCounts.length - 0.7) * scaffoldBlockPxWidth` and the leaf icon's offset and inline style: floating-point layout.
- The `styles.*` stylesheet names, the inline style objects other than the caller's `opacity` override, and the string concatenation of class names: classes are abstract tokens in a list.
- Mapping `icons` and `buttons` into wrapper divs and the pass-through of other props: markup with no decision in it.
- TreeNode.IsDescendant: only finite, acyclic trees are modelled. The source recursion keeps no visited set, so on a cyclic `children` graph it would not return; a Dafny datatype cannot represent such a graph.
- TreeNode.IsDescendant: JavaScript truthiness of non-array, non-function `children` values (such as a non-empty string) is not modelled; those values are not part of the node shape.
- NodeContentRenderer.DisplayedTitle: titles are limited to no title, a string, an opaque element and a render function; numeric titles and their truthiness are not modelled.
