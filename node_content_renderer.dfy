/** The decisions the file-explorer row renderer takes for one row of the
    tree: the indentation scaffold, the icon letter, the expand/collapse
    control or leaf icon, the row's style classes, its opacity, its title and
    whether the row becomes a drag source. Markup is reduced to records of
    these decisions; style classes are abstract tokens. */
module NodeContentRenderer {
  import opened TreeNode

  // ---------------------------------------------------------------------------
  // Icon letters

  /** The fixed table from node classification to icon letter. */
  const IconLetters: map<string, char> := map[
    "compound" := 'C',
    "study" := 'S',
    "reporting-effort" := 'R',
    "table" := 'T',
    "listing" := 'L',
    "graph" := 'G',
    "column-layout" := 'C',
    "footnote-group" := 'F']

  /** The letter shown in a leaf's icon, chosen by the node's `classname`;
      an unknown or missing classname gives the empty string. */
  function IconChar(classname: Option<string>): (r: string)
    ensures |r| <= 1
    ensures classname.Some? && classname.value in IconLetters ==> r == [IconLetters[classname.value]]
    ensures !(classname.Some? && classname.value in IconLetters) ==> r == ""
  {
    match classname
    case None => ""
    case Some(c) =>
      if c == "compound" then "C"
      else if c == "study" then "S"
      else if c == "reporting-effort" then "R"
      else if c == "table" then "T"
      else if c == "listing" then "L"
      else if c == "graph" then "G"
      else if c == "column-layout" then "C"
      else if c == "footnote-group" then "F"
      else ""
  }

  // ---------------------------------------------------------------------------
  // Scaffold

  /** A key of the row's path from the root (a string or a number). */
  datatype PathKey = Name(name: string) | Index(index: int)

  /** One indentation block; the pixel width is copied through unchanged. */
  datatype ScaffoldBlock = LineChildren(width: real) | LineBlock(width: real, left: real)

  /** `s` is the scaffold of a row at path length `depth`: one line-children
      block per ancestor level and then exactly one line block, so a row of
      depth 0 still gets its single line block. */
  ghost predicate IsScaffold(s: seq<ScaffoldBlock>, depth: nat, width: real) {
    && |s| == (if depth == 0 then 1 else depth)
    && (forall k :: 0 <= k < |s| - 1 ==> s[k] == LineChildren(width))
    && s[|s| - 1] == LineBlock(width, width)
  }

  /** Builds the scaffold the way the renderer does: a loop pushing
      `path.length - 1` line-children blocks, then one line block. */
  method BuildScaffold(path: seq<PathKey>, blockWidth: real) returns (scaffold: seq<ScaffoldBlock>)
    ensures IsScaffold(scaffold, |path|, blockWidth)
    ensures |path| >= 1 ==> |scaffold| == |path|
  {
    scaffold := [];
    var i := 0;
    while i < |path| - 1
      invariant 0 <= i && (i <= |path| - 1 || i == 0)
      invariant |scaffold| == i
      invariant forall k :: 0 <= k < i ==> scaffold[k] == LineChildren(blockWidth)
    {
      scaffold := scaffold + [LineChildren(blockWidth)];
      i := i + 1;
    }
    scaffold := scaffold + [LineBlock(blockWidth, blockWidth)];
  }

  // ---------------------------------------------------------------------------
  // Style classes

  datatype StyleClass =
    | RowWrapper | RowWrapperDragDisabled
    | Row | RowLandingPad | RowCancelPad | RowSearchMatch | RowSearchFocus | Custom(name: string)
    | RowContents | RowContentsDragDisabled

  /** Position of a row class in the row's class list. */
  function RowClassOrder(c: StyleClass): nat {
    match c
    case Row => 0
    case RowLandingPad => 1
    case RowCancelPad => 2
    case RowSearchMatch => 3
    case RowSearchFocus => 4
    case Custom(_) => 5
    case _ => 6
  }

  /** The classes of `s` follow the row's class order strictly. */
  ghost predicate InRowOrder(s: seq<StyleClass>) {
    forall i, j :: 0 <= i < j < |s| ==> RowClassOrder(s[i]) < RowClassOrder(s[j])
  }

  /** The single class `c` when `cond` holds, nothing otherwise (one
      conditional term of the class string). */
  function Opt(cond: bool, c: StyleClass): (r: seq<StyleClass>)
    ensures forall x :: x in r <==> cond && x == c
    ensures |r| == (if cond then 1 else 0)
  {
    if cond then [c] else []
  }

  /** `s` with the conditional term `Opt(cond, c)` appended; the ordering
      proof for the row's classes goes one such step at a time. */
  function AppendIf(s: seq<StyleClass>, cond: bool, c: StyleClass): (r: seq<StyleClass>)
    ensures forall x :: x in r <==> x in s || (cond && x == c)
    ensures |s| > 0 ==> |r| > 0 && r[0] == s[0]
  {
    s + Opt(cond, c)
  }

  /** Appending a class that comes after every class already present keeps the order. */
  lemma AppendIfInOrder(s: seq<StyleClass>, cond: bool, c: StyleClass)
    requires InRowOrder(s) && forall x :: x in s ==> RowClassOrder(x) < RowClassOrder(c)
    ensures InRowOrder(AppendIf(s, cond, c))
  {
  }


  /** Which classes the row's class list holds, one conditional term at a time. */
  lemma ClassListMembers(r: seq<StyleClass>, landingPad: bool, canDrop: bool,
                         isSearchMatch: bool, isSearchFocus: bool, className: string)
    requires r == [Row]
      + Opt(landingPad, RowLandingPad)
      + Opt(landingPad && !canDrop, RowCancelPad)
      + Opt(isSearchMatch, RowSearchMatch)
      + Opt(isSearchFocus, RowSearchFocus)
      + Opt(className != "", Custom(className))
    ensures forall x :: x in r <==>
      || x == Row
      || (landingPad && x == RowLandingPad)
      || (landingPad && !canDrop && x == RowCancelPad)
      || (isSearchMatch && x == RowSearchMatch)
      || (isSearchFocus && x == RowSearchFocus)
      || (className != "" && x == Custom(className))
  {
  }

  /** The row's classes. The landing pad shows while a drag is in progress and
      has not dropped; the cancel pad additionally needs the drop to be refused;
      the caller's class name is added only when it is non-empty. */
  function RowClasses(isDragging: bool, didDrop: bool, canDrop: bool,
                      isSearchMatch: bool, isSearchFocus: bool, className: string): (r: seq<StyleClass>)
    ensures |r| >= 1 && r[0] == Row
    ensures RowLandingPad in r <==> isDragging && !didDrop
    ensures RowCancelPad in r <==> isDragging && !didDrop && !canDrop
    ensures RowCancelPad in r ==> RowLandingPad in r
    ensures RowSearchMatch in r <==> isSearchMatch
    ensures RowSearchFocus in r <==> isSearchFocus
    ensures forall name :: Custom(name) in r <==> name == className && className != ""
    ensures forall c :: c in r ==> RowClassOrder(c) < 6
  {
    var landingPad := !didDrop && isDragging;
    var r := [Row]
      + Opt(landingPad, RowLandingPad)
      + Opt(landingPad && !canDrop, RowCancelPad)
      + Opt(isSearchMatch, RowSearchMatch)
      + Opt(isSearchFocus, RowSearchFocus)
      + Opt(className != "", Custom(className));
    ClassListMembers(r, landingPad, canDrop, isSearchMatch, isSearchFocus, className);
    r
  }

  /** The row's classes appear in a fixed order (which decides precedence
      between conflicting styles), each at most once. */
  lemma RowClassesInOrder(isDragging: bool, didDrop: bool, canDrop: bool,
                          isSearchMatch: bool, isSearchFocus: bool, className: string)
    ensures InRowOrder(RowClasses(isDragging, didDrop, canDrop, isSearchMatch, isSearchFocus, className))
  {
    var landingPad := !didDrop && isDragging;
    var withLanding := AppendIf([Row], landingPad, RowLandingPad);
    AppendIfInOrder([Row], landingPad, RowLandingPad);
    var withCancel := AppendIf(withLanding, landingPad && !canDrop, RowCancelPad);
    AppendIfInOrder(withLanding, landingPad && !canDrop, RowCancelPad);
    var withMatch := AppendIf(withCancel, isSearchMatch, RowSearchMatch);
    AppendIfInOrder(withCancel, isSearchMatch, RowSearchMatch);
    var withFocus := AppendIf(withMatch, isSearchFocus, RowSearchFocus);
    AppendIfInOrder(withMatch, isSearchFocus, RowSearchFocus);
    AppendIfInOrder(withFocus, className != "", Custom(className));
  }

  /** A base class followed by its drag-disabled variant when dragging is not
      permitted (used for the row wrapper and for the row contents). */
  function DragAwareClasses(base: StyleClass, disabled: StyleClass, canDrag: bool): (r: seq<StyleClass>)
    requires base != disabled
    ensures |r| >= 1 && r[0] == base
    ensures disabled in r <==> !canDrag
    ensures forall c :: c in r ==> c == base || c == disabled
    ensures |r| == (if canDrag then 1 else 2)
  {
    [base] + (if !canDrag then [disabled] else [])
  }

  // ---------------------------------------------------------------------------
  // Opacity

  /** The computed opacity: half when a node is being dragged and the row's
      node is a descendant of it, full otherwise. */
  function Opacity(draggedNode: Option<Node>, node: Node): (r: real)
    ensures r == 0.5 || r == 1.0
    ensures r == 0.5 <==> draggedNode.Some? && Reaches(draggedNode.value, node)
  {
    IsDescendantIffReaches(if draggedNode.Some? then draggedNode.value else node, node);
    if draggedNode.Some? && IsDescendant(draggedNode.value, node) then 0.5 else 1.0
  }

  /** The opacity the row ends up with: the caller's `style` is spread after
      the computed opacity, so an `opacity` given there replaces it. */
  function StyledOpacity(computed: real, styleOpacity: Option<real>): (r: real)
    ensures styleOpacity.Some? ==> r == styleOpacity.value
    ensures styleOpacity.None? ==> r == computed
  {
    match styleOpacity
    case Some(o) => o
    case None => computed
  }

  /** The dragged node's own row is never dimmed (identities unique in its tree). */
  lemma DraggedRowNotDimmed(dragged: Node)
    requires UniqueIds(dragged)
    ensures Opacity(Some(dragged), dragged) == 1.0
  {
    NotOwnDescendant(dragged, []);
    IsDescendantIffReaches(dragged, dragged);
  }

  /** The rows of the dragged node's children are dimmed. */
  lemma ChildRowDimmed(dragged: Node, child: Node)
    requires dragged.children.List? && child in dragged.children.nodes
    ensures Opacity(Some(dragged), child) == 0.5
  {
  }


  /** Dimming is inherited: a child of a dimmed node of the dragged tree is dimmed too. */
  lemma DimmingInherited(dragged: Node, row: Node, child: Node)
    requires IdentifiedIn(dragged, row)
    requires Opacity(Some(dragged), row) == 0.5
    requires row.children.List? && child in row.children.nodes
    ensures Opacity(Some(dragged), child) == 0.5
  {
    IsDescendantIffReaches(dragged, row);
    ChildIsDescendant(row, child);
    DescendantTransitive(dragged, row, child);
    IsDescendantIffReaches(dragged, child);
  }

  // ---------------------------------------------------------------------------
  // Expand/collapse control or leaf icon

  datatype Control = CollapseButton | ExpandButton | LeafIcon(glyph: string)

  /** JavaScript's `children.length`: the list length, or, for a lazy loader
      function, its `length` (the parameters before the first default or rest
      parameter). It is zero exactly for an empty list or a loader without
      such parameters. */
  function ChildrenLength(c: Children): (r: nat)
    requires !c.Absent?
    ensures c.List? ==> r == |c.nodes|
    ensures c.Lazy? ==> r == c.arity
    ensures r == 0 <==> c == List([]) || c == Lazy(0)
  {
    match c
    case Lazy(arity) => arity
    case List(nodes) => |nodes|
  }

  /** The controls in front of the row. The renderer tests two separate
      conditions, one for the toggle button (callback supplied, children
      present with positive length) and one for the leaf icon (callback
      supplied, children absent or of length zero). */
  function Controls(hasToggle: bool, node: Node): (r: seq<Control>)
    ensures !hasToggle ==> r == []
    ensures hasToggle ==> |r| == 1
    ensures hasToggle && node.children.List? ==> (r[0].LeafIcon? <==> node.children.nodes == [])
    ensures hasToggle && node.children.Absent? ==> r[0].LeafIcon?
    ensures hasToggle && node.children.Lazy? ==> (r[0].LeafIcon? <==> node.children.arity == 0)
    ensures forall k :: 0 <= k < |r| && r[k].LeafIcon? ==> r[k].glyph == IconChar(node.classname)
    ensures forall k :: 0 <= k < |r| && !r[k].LeafIcon? ==> (r[k].CollapseButton? <==> node.expanded)
  {
    (if hasToggle && !node.children.Absent? && ChildrenLength(node.children) > 0
     then [if node.expanded then CollapseButton else ExpandButton] else [])
    + (if hasToggle && (node.children.Absent? || ChildrenLength(node.children) == 0)
       then [LeafIcon(IconChar(node.classname))] else [])
  }

  // ---------------------------------------------------------------------------
  // Title

  /** What the title slot shows: a title value, or the output of a render
      function called with the row's node, path and tree index (opaque). */
  datatype Label =
    | Shown(title: Title)
    | Invoked(renderer: nat, node: Node, path: seq<PathKey>, treeIndex: nat)

  /** JavaScript truthiness of a title value: only a missing title and the
      empty string are falsy. */
  function Truthy(t: Title): (r: bool)
    ensures !r <==> t == NoTitle || t == Text("")
  {
    match t
    case NoTitle => false
    case Text(s) => s != ""
    case _ => true
  }

  /** The title prop wins when truthy, otherwise the node's own title is used;
      a render function is called with the row's context. */
  function DisplayedTitle(title: Title, node: Node, path: seq<PathKey>, treeIndex: nat): (r: Label)
    ensures r.Invoked? ==> r.node == node && r.path == path && r.treeIndex == treeIndex
    ensures Truthy(title) ==> (r.Invoked? <==> title.RenderFn?)
    ensures Truthy(title) && r.Invoked? ==> r.renderer == title.renderer
    ensures Truthy(title) && r.Shown? ==> r.title == title
    ensures !Truthy(title) ==> (r.Invoked? <==> node.title.RenderFn?)
    ensures !Truthy(title) && r.Invoked? ==> r.renderer == node.title.renderer
    ensures !Truthy(title) && r.Shown? ==> r.title == node.title
  {
    var nodeTitle := if Truthy(title) then title else node.title;
    match nodeTitle
    case RenderFn(f) => Invoked(f, node, path, treeIndex)
    case _ => Shown(nodeTitle)
  }

  // ---------------------------------------------------------------------------
  // The whole row

  /** The per-row inputs the decisions depend on. `hasToggle` says whether a
      `toggleChildrenVisibility` callback was supplied; `styleOpacity` is the
      `opacity` entry of the caller's `style` object, if it has one. */
  datatype Props = Props(
    node: Node,
    path: seq<PathKey>,
    treeIndex: nat,
    scaffoldBlockPxWidth: real,
    hasToggle: bool,
    isDragging: bool,
    didDrop: bool,
    canDrop: bool,
    canDrag: bool,
    title: Title,
    draggedNode: Option<Node>,
    isSearchMatch: bool,
    isSearchFocus: bool,
    className: string,
    styleOpacity: Option<real>)

  /** The decisions that make up one rendered row. */
  datatype RowView = RowView(
    controls: seq<Control>,
    wrapperClasses: seq<StyleClass>,
    scaffold: seq<ScaffoldBlock>,
    rowClasses: seq<StyleClass>,
    opacity: real,
    contentsClasses: seq<StyleClass>,
    caption: Label)

  /** The row either becomes a drag source (with its drop effect) or is returned as is. */
  datatype Rendered = DragSource(content: RowView, dropEffect: string) | Plain(content: RowView)

  /** Wraps the row in a drag source, with the copy drop effect, exactly when dragging is permitted. */
  function WrapForDrag(canDrag: bool, content: RowView): (r: Rendered)
    ensures r.content == content
    ensures r.DragSource? <==> canDrag
    ensures r.DragSource? ==> r.dropEffect == "copy"
  {
    if canDrag then DragSource(content, "copy") else Plain(content)
  }

  /** Renders one row: every decision of the row, then the drag-source choice. */
  method Render(props: Props) returns (out: Rendered)
    ensures out.DragSource? <==> props.canDrag
    ensures out.DragSource? ==> out.dropEffect == "copy"
    ensures IsScaffold(out.content.scaffold, |props.path|, props.scaffoldBlockPxWidth)
    ensures out.content.controls == Controls(props.hasToggle, props.node)
    ensures out.content.wrapperClasses == DragAwareClasses(RowWrapper, RowWrapperDragDisabled, props.canDrag)
    ensures out.content.contentsClasses == DragAwareClasses(RowContents, RowContentsDragDisabled, props.canDrag)
    ensures out.content.rowClasses ==
            RowClasses(props.isDragging, props.didDrop, props.canDrop,
                       props.isSearchMatch, props.isSearchFocus, props.className)
    ensures out.content.opacity ==
            if props.styleOpacity.Some? then props.styleOpacity.value
            else Opacity(props.draggedNode, props.node)
    ensures out.content.caption == DisplayedTitle(props.title, props.node, props.path, props.treeIndex)
  {
    var scaffold := BuildScaffold(props.path, props.scaffoldBlockPxWidth);
    var content := RowView(
      Controls(props.hasToggle, props.node),
      DragAwareClasses(RowWrapper, RowWrapperDragDisabled, props.canDrag),
      scaffold,
      RowClasses(props.isDragging, props.didDrop, props.canDrop,
                 props.isSearchMatch, props.isSearchFocus, props.className),
      StyledOpacity(Opacity(props.draggedNode, props.node), props.styleOpacity),
      DragAwareClasses(RowContents, RowContentsDragDisabled, props.canDrag),
      DisplayedTitle(props.title, props.node, props.path, props.treeIndex));
    out := WrapForDrag(props.canDrag, content);
  }
}
