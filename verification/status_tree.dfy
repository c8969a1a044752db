/** The parse tree produced by the single-line status grammar
    (display-controller.py:113-138) and its conversion into a `Display`
    (`parse_display`, `parse_offset`).

    The grammar engine itself is not modelled; only the shape of the trees
    it builds. As in Lark, terminals written as anonymous strings
    ("connected", "primary", "x", "(", "mm", ...) are dropped from the tree,
    named terminals (TEXT, NUMBER, OFFSET_DIRECTION) stay as tokens. */
module StatusTree {
  import opened Wrappers
  import opened Displays

  datatype Node = Tree(data: string, children: seq<Node>) | Token(kind: string, value: string)

  predicate IsTreeNamed(n: Node, element: string) {
    n.Tree? && n.data == element
  }

  /** `__filter_tree`: the sub-trees labelled `element`, in input order
      (`FilterTreeSelectsMatches` states that exactly these are kept). */
  function FilterTree(elements: seq<Node>, element: string): (r: seq<Node>)
    ensures |r| <= |elements|
    ensures forall i :: 0 <= i < |r| ==> IsTreeNamed(r[i], element) && r[i] in elements
    ensures |r| == 0 <==> forall i :: 0 <= i < |elements| ==> !IsTreeNamed(elements[i], element)
  {
    if |elements| == 0 then []
    else if IsTreeNamed(elements[0], element) then [elements[0]] + FilterTree(elements[1..], element)
    else FilterTree(elements[1..], element)
  }

  /** `__filter_tree_single`: the first sub-tree labelled `element`, if any. */
  function FilterTreeSingle(elements: seq<Node>, element: string): (r: Option<Node>)
    ensures r.Some? ==> IsTreeNamed(r.value, element)
    ensures r.Some? ==> exists i :: 0 <= i < |elements| && elements[i] == r.value
                                    && forall j :: 0 <= j < i ==> !IsTreeNamed(elements[j], element)
    ensures r.None? <==> forall i :: 0 <= i < |elements| ==> !IsTreeNamed(elements[i], element)
  {
    var found := FilterTree(elements, element);
    if |found| == 0 then
      None
    else
      FilterTreeHead(elements, element);
      Some(found[0])
  }

  /** The first element `__filter_tree` keeps is the first match. */
  lemma {:induction false} FilterTreeHead(elements: seq<Node>, element: string)
    requires |FilterTree(elements, element)| > 0
    ensures exists i :: 0 <= i < |elements| && elements[i] == FilterTree(elements, element)[0]
                        && forall j :: 0 <= j < i ==> !IsTreeNamed(elements[j], element)
  {
    if !IsTreeNamed(elements[0], element) {
      FilterTreeHead(elements[1..], element);
      var i :| 0 <= i < |elements[1..]| && elements[1..][i] == FilterTree(elements[1..], element)[0]
               && forall j :: 0 <= j < i ==> !IsTreeNamed(elements[1..][j], element);
      assert elements[i + 1] == FilterTree(elements, element)[0];
      forall j | 0 <= j < i + 1 ensures !IsTreeNamed(elements[j], element) {
        if j > 0 { assert elements[j] == elements[1..][j - 1]; }
      }
    }
  }

  // ---- `__filter_tree` keeps exactly the matches, in order -------------------

  /** `r` is `elements` read at the positions `pos`. */
  predicate Picks(elements: seq<Node>, r: seq<Node>, pos: seq<nat>) {
    |pos| == |r| && forall k :: 0 <= k < |pos| ==> pos[k] < |elements| && r[k] == elements[pos[k]]
  }

  predicate Increasing(pos: seq<nat>) {
    forall k, m :: 0 <= k < m < |pos| ==> pos[k] < pos[m]
  }

  /** Every position holding a tree labelled `element` is among `pos`. */
  predicate CoversMatches(elements: seq<Node>, element: string, pos: seq<nat>) {
    forall i :: 0 <= i < |elements| && IsTreeNamed(elements[i], element) ==> i in pos
  }

  function Shift(pos: seq<nat>): (r: seq<nat>)
    ensures |r| == |pos| && forall k :: 0 <= k < |pos| ==> r[k] == pos[k] + 1
  {
    seq(|pos|, k requires 0 <= k < |pos| => pos[k] + 1)
  }

  /** Every position among `pos` holds a tree labelled `element`. */
  predicate OnlyMatches(elements: seq<Node>, element: string, pos: seq<nat>) {
    forall k :: 0 <= k < |pos| ==> pos[k] < |elements| && IsTreeNamed(elements[pos[k]], element)
  }

  /** The filter result is the input read at strictly increasing positions,
      every position it reads holds a match, and every match is read: it is
      exactly the labelled sub-trees, each once, in input order. */
  lemma {:induction false} FilterTreeSelectsMatches(elements: seq<Node>, element: string) returns (pos: seq<nat>)
    ensures Picks(elements, FilterTree(elements, element), pos)
    ensures Increasing(pos)
    ensures OnlyMatches(elements, element, pos)
    ensures CoversMatches(elements, element, pos)
  {
    if |elements| == 0 {
      pos := [];
    } else {
      var p := FilterTreeSelectsMatches(elements[1..], element);
      var rest := FilterTree(elements[1..], element);
      PicksCons(elements, rest, p);
      IncreasingCons(p);
      OnlyMatchesCons(elements, element, p);
      CoversCons(elements, element, p);
      if IsTreeNamed(elements[0], element) {
        assert FilterTree(elements, element) == [elements[0]] + rest;
        pos := [0] + Shift(p);
      } else {
        assert FilterTree(elements, element) == rest;
        pos := Shift(p);
      }
    }
  }

  lemma OnlyMatchesCons(elements: seq<Node>, element: string, p: seq<nat>)
    requires |elements| > 0 && OnlyMatches(elements[1..], element, p)
    ensures OnlyMatches(elements, element, Shift(p))
    ensures IsTreeNamed(elements[0], element) ==> OnlyMatches(elements, element, [0] + Shift(p))
  {
    var q := Shift(p);
    forall k | 0 <= k < |q| ensures q[k] < |elements| && IsTreeNamed(elements[q[k]], element) {
      assert elements[1..][p[k]] == elements[q[k]];
    }
    var pos := [0] + q;
    forall k | 0 < k < |pos| ensures pos[k] == q[k - 1] {}
  }

  lemma PicksCons(elements: seq<Node>, rest: seq<Node>, p: seq<nat>)
    requires |elements| > 0 && Picks(elements[1..], rest, p)
    ensures Picks(elements, rest, Shift(p))
    ensures Picks(elements, [elements[0]] + rest, [0] + Shift(p))
  {
    var q := Shift(p);
    forall k | 0 <= k < |q| ensures q[k] < |elements| && rest[k] == elements[q[k]] {
      assert elements[1..][p[k]] == elements[q[k]];
    }
    var r, pos := [elements[0]] + rest, [0] + q;
    forall k | 0 < k < |pos| ensures pos[k] == q[k - 1] && r[k] == rest[k - 1] {}
  }

  lemma IncreasingCons(p: seq<nat>)
    requires Increasing(p)
    ensures Increasing(Shift(p)) && Increasing([0] + Shift(p))
  {
    var q := Shift(p);
    var pos := [0] + q;
    forall k, m | 0 <= k < m < |pos| ensures pos[k] < pos[m] {
      assert pos[m] == q[m - 1];
      if k > 0 { assert pos[k] == q[k - 1]; }
    }
  }

  lemma CoversCons(elements: seq<Node>, element: string, p: seq<nat>)
    requires |elements| > 0 && CoversMatches(elements[1..], element, p)
    ensures CoversMatches(elements, element, [0] + Shift(p))
    ensures !IsTreeNamed(elements[0], element) ==> CoversMatches(elements, element, Shift(p))
  {
    var q := Shift(p);
    forall i | 0 < i < |elements| && IsTreeNamed(elements[i], element) ensures i in q {
      assert elements[1..][i - 1] == elements[i];
      var k :| 0 <= k < |p| && p[k] == i - 1;
      assert q[k] == i;
    }
    assert forall i :: i in q ==> i in [0] + q;
  }

  /** `parse_offset`: direction token, then the offset_value sub-tree's number.
      None stands for the exception Python raises on any other shape. */
  function ParseOffset(n: Node): (r: Option<Offset>)
    ensures r.Some? ==> n.Tree? && |n.children| >= 2 && n.children[0].Token?
                        && r.value.direction == n.children[0].value
    ensures r.Some? ==> n.children[1].Tree? && |n.children[1].children| >= 1 && n.children[1].children[0].Token?
                        && r.value.offset == n.children[1].children[0].value
    ensures r.None? ==> !n.Tree? || |n.children| < 2 || !n.children[0].Token? || !n.children[1].Tree?
                        || |n.children[1].children| == 0 || !n.children[1].children[0].Token?
  {
    if n.Tree? && |n.children| >= 2 && n.children[0].Token?
       && n.children[1].Tree? && |n.children[1].children| >= 1 && n.children[1].children[0].Token?
    then Some(Offset(n.children[0].value, n.children[1].children[0].value))
    else None
  }

  /** The resolution/offset block of `parse_display` (display-controller.py:211-216). */
  function ParseGeometry(ro: Node): (r: Option<(string, Offset, Offset)>)
    requires ro.Tree?
    // the resolution is the first "pixels" number, "x", then the second one
    ensures r.Some? ==> var pixels := FilterTree(ro.children, "pixels");
                        |pixels| >= 2 && |pixels[0].children| > 0 && |pixels[1].children| > 0
                        && pixels[0].children[0].Token? && pixels[1].children[0].Token?
                        && r.value.0 == pixels[0].children[0].value + "x" + pixels[1].children[0].value
    // the offsets are the two children of the first "screen_offset" sub-tree
    ensures r.Some? ==> var screenOffset := FilterTreeSingle(ro.children, "screen_offset");
                        screenOffset.Some? && |screenOffset.value.children| >= 2
                        && ParseOffset(screenOffset.value.children[0]) == Some(r.value.1)
                        && ParseOffset(screenOffset.value.children[1]) == Some(r.value.2)
  {
    var pixels := FilterTree(ro.children, "pixels");
    var screenOffset := FilterTreeSingle(ro.children, "screen_offset");
    if |pixels| < 2 || |pixels[0].children| == 0 || !pixels[0].children[0].Token?
       || |pixels[1].children| == 0 || !pixels[1].children[0].Token?
       || screenOffset.None? || |screenOffset.value.children| < 2
    then None
    else
      var resolution := pixels[0].children[0].value + "x" + pixels[1].children[0].value;
      match (ParseOffset(screenOffset.value.children[0]), ParseOffset(screenOffset.value.children[1]))
      case (Some(x), Some(y)) => Some((resolution, x, y))
      case _ => None
  }

  /** `parse_display`: the record for one "connected" line. The result is a fresh
      display (empty EDID) whose resolution and offsets are all present exactly
      when the line's tree has a resolution_offset sub-tree. */
  function ParseDisplay(t: Node): (r: Option<Display>)
    ensures r.Some? ==> r.value.edid == ""
    ensures r.Some? ==> GeometryConsistent(r.value)
    ensures r.Some? ==> t.Tree? && (r.value.resolution.Some? <==> FilterTreeSingle(t.children, "resolution_offset").Some?)
  {
    if !t.Tree? then None
    else
      var output := FilterTreeSingle(t.children, "output");
      if output.None? || |output.value.children| == 0 || !output.value.children[0].Token? then None
      else
        var name := output.value.children[0].value;
        match FilterTreeSingle(t.children, "resolution_offset")
        case None => Some(NewDisplay(name, None, None, None, None))
        case Some(ro) =>
          match ParseGeometry(ro)
          case None => None
          case Some((resolution, x, y)) => Some(NewDisplay(name, Some(resolution), Some(x), Some(y), None))
  }

  // ---- The trees the grammar builds ----------------------------------------

  /** The fields of the resolution_offset rule: width, height and both offsets. */
  datatype Geometry = Geometry(width: string, height: string, x: Offset, y: Offset)

  /** The parts of a status line that reach the tree of the grammar's `start`
      rule: output name, optional geometry and optional size in mm. The
      "primary" keyword and the orientation words are anonymous terminals,
      so Lark drops them and they leave no trace here. */
  datatype StatusLine = StatusLine(
    output: string,
    geometry: Option<Geometry>,
    size: Option<(string, string)>)

  predicate IsTextChar(c: char) {
    c == '-' || ('a' <= c <= 'z') || ('A' <= c <= 'Z') || ('0' <= c <= '9')
  }

  /** The TEXT terminal `/[-a-zA-Z0-9]+/`. */
  predicate IsText(s: string) {
    |s| > 0 && forall i :: 0 <= i < |s| ==> IsTextChar(s[i])
  }

  function NumberTree(data: string, digits: string): Node {
    Tree(data, [Token("NUMBER", digits)])
  }

  function OffsetTree(o: Offset): Node {
    Tree("offset", [Token("OFFSET_DIRECTION", o.direction), NumberTree("offset_value", o.offset)])
  }

  function GeometryTree(g: Geometry): Node {
    Tree("resolution_offset",
         [NumberTree("pixels", g.width), NumberTree("pixels", g.height),
          Tree("screen_offset", [OffsetTree(g.x), OffsetTree(g.y)])])
  }

  function GeometryPart(geometry: Option<Geometry>): seq<Node> {
    match geometry case None => [] case Some(g) => [GeometryTree(g)]
  }

  function SizePart(size: Option<(string, string)>): seq<Node> {
    match size
    case None => []
    case Some((w, h)) => [Tree("screen_size", [NumberTree("length", w), NumberTree("length", h)])]
  }

  /** The tree Lark builds for a status line with these fields. */
  function ToTree(l: StatusLine): Node {
    Tree("start", [Tree("output", [Token("TEXT", l.output)])]
                  + (GeometryPart(l.geometry) + ([Tree("orientation", [])] + SizePart(l.size))))
  }

  /** The record `parse_display` should recover from a status line. */
  function Expected(l: StatusLine): Display {
    match l.geometry
    case None => Display(l.output, None, None, None, "")
    case Some(g) => Display(l.output, Some(g.width + "x" + g.height), Some(g.x), Some(g.y), "")
  }

  lemma FilterTreeCons(e: Node, rest: seq<Node>, element: string)
    ensures FilterTree([e] + rest, element)
            == (if IsTreeNamed(e, element) then [e] else []) + FilterTree(rest, element)
  {
    assert ([e] + rest)[1..] == rest;
  }

  lemma GeometryPixels(g: Geometry)
    ensures FilterTree(GeometryTree(g).children, "pixels")
            == [NumberTree("pixels", g.width), NumberTree("pixels", g.height)]
  {
    var ro := GeometryTree(g);
    var p1, p2, so := ro.children[0], ro.children[1], ro.children[2];
    assert ro.children == [p1] + [p2, so];
    assert [p2, so] == [p2] + [so];
    assert [so] == [so] + [];
    FilterTreeCons(p1, [p2, so], "pixels");
    FilterTreeCons(p2, [so], "pixels");
    FilterTreeCons(so, [], "pixels");
  }

  lemma GeometryScreenOffset(g: Geometry)
    ensures FilterTreeSingle(GeometryTree(g).children, "screen_offset")
            == Some(Tree("screen_offset", [OffsetTree(g.x), OffsetTree(g.y)]))
  {
    var ro := GeometryTree(g);
    var p1, p2, so := ro.children[0], ro.children[1], ro.children[2];
    assert ro.children == [p1] + [p2, so];
    assert [p2, so] == [p2] + [so];
    FilterTreeCons(p1, [p2, so], "screen_offset");
    FilterTreeCons(p2, [so], "screen_offset");
    assert FilterTree([so], "screen_offset") == [so];
  }

  lemma GeometryRoundTrip(g: Geometry)
    ensures ParseGeometry(GeometryTree(g)) == Some((g.width + "x" + g.height, g.x, g.y))
  {
    GeometryPixels(g);
    GeometryScreenOffset(g);
    OffsetRoundTrip(g.x);
    OffsetRoundTrip(g.y);
  }

  lemma OffsetRoundTrip(o: Offset)
    ensures ParseOffset(OffsetTree(o)) == Some(o)
  {
  }

  lemma StartOutput(l: StatusLine)
    ensures FilterTreeSingle(ToTree(l).children, "output") == Some(Tree("output", [Token("TEXT", l.output)]))
  {
    var t := ToTree(l);
    assert t.children == [t.children[0]] + t.children[1..];
    FilterTreeCons(t.children[0], t.children[1..], "output");
  }

  lemma StartGeometry(l: StatusLine)
    ensures FilterTreeSingle(ToTree(l).children, "resolution_offset")
            == match l.geometry case None => None case Some(g) => Some(GeometryTree(g))
  {
    var output := Tree("output", [Token("TEXT", l.output)]);
    var tail := [Tree("orientation", [])] + SizePart(l.size);
    FilterTreeCons(output, GeometryPart(l.geometry) + tail, "resolution_offset");
    FilterTreeCons(Tree("orientation", []), SizePart(l.size), "resolution_offset");
    assert FilterTree(tail, "resolution_offset") == [];
    if l.geometry.Some? {
      FilterTreeCons(GeometryTree(l.geometry.value), tail, "resolution_offset");
    } else {
      assert GeometryPart(l.geometry) + tail == tail;
    }
  }

  /** Extraction is lossless on every tree the grammar builds: the name, the
      "WxH" resolution and both offsets come back, and a valid line always
      yields a non-empty name. */
  lemma ParseDisplayRoundTrip(l: StatusLine)
    ensures ParseDisplay(ToTree(l)) == Some(Expected(l))
    ensures IsText(l.output) ==> ParseDisplay(ToTree(l)).value.name != ""
  {
    StartOutput(l);
    StartGeometry(l);
    if l.geometry.Some? {
      GeometryRoundTrip(l.geometry.value);
    }
  }
}
