/** The overlay sidebar's tree: a "Collections" category for the editor's
    overlay collections, then one node per overlay type filed under its
    editor category, each category's nodes kept ordered by text, and a
    preview texture chosen from each entry's frames. */
module OverlayList {
  import opened Common
  import opened Textures
  import opened TextSort

  /** An editor overlay collection: its name and the Index of each overlay type it holds. */
  datatype OverlayCollection = OverlayCollection(name: string, overlayTypes: seq<nat>)

  /** A frame of a shape image, whose texture may itself be absent. */
  datatype ShapeFrame = ShapeFrame(texture: Option<Texture>)

  /** The loaded graphics of an overlay type; a frame slot is None when the frame has no image. */
  datatype ShapeImage = ShapeImage(frames: seq<Option<ShapeFrame>>)

  /** What a tree node stands for: an overlay collection, or the overlay type at a position of the rules' list. */
  datatype NodeTag = CollectionTag(collection: OverlayCollection) | OverlayTag(index: nat)

  datatype TreeNode = TreeNode(text: string, texture: Option<Texture>, tag: NodeTag)

  datatype Category = Category(text: string, nodes: seq<TreeNode>)

  /** The sort key of OrderBy(n => n.Text). */
  function NodeText(n: TreeNode): string {
    n.text
  }

  /** No two categories share a name. */
  predicate UniqueNames(cats: seq<Category>) {
    forall a, b :: 0 <= a < b < |cats| ==> cats[a].text != cats[b].text
  }

  /** List.Find by name from position `from` on: the first category with that name, or -1. */
  function FindCategoryFrom(cats: seq<Category>, name: string, from: nat): (r: int)
    requires from <= |cats|
    ensures r == -1 || from <= r < |cats|
    ensures r == -1 <==> forall k :: from <= k < |cats| ==> cats[k].text != name
    ensures r != -1 ==> cats[r].text == name && forall k :: from <= k < r ==> cats[k].text != name
    decreases |cats| - from
  {
    if from == |cats| then -1
    else if cats[from].text == name then from
    else FindCategoryFrom(cats, name, from + 1)
  }

  /** A category list together with the position of the category just used. */
  datatype Placement = Placement(categories: seq<Category>, index: nat)

  /** FindOrMakeCategory: the existing category of that name, the list left
      untouched; otherwise a new empty category of that name appended, so the
      names stay unique. */
  function FindOrMakeCategory(name: string, cats: seq<Category>): (p: Placement)
    ensures p.index < |p.categories| && p.categories[p.index].text == name
    ensures (exists k :: 0 <= k < |cats| && cats[k].text == name) ==>
      p.categories == cats && forall k :: 0 <= k < p.index ==> cats[k].text != name
    ensures (forall k :: 0 <= k < |cats| ==> cats[k].text != name) ==>
      p.categories == cats + [Category(name, [])] && p.index == |cats|
    ensures UniqueNames(cats) ==> UniqueNames(p.categories)
  {
    var found := FindCategoryFrom(cats, name, 0);
    if found != -1 then Placement(cats, found)
    else Placement(cats + [Category(name, [])], |cats|)
  }

  /** The category an overlay type is filed under: its editor category, or
      "Unspecified" when that is null or empty. */
  function CategoryName(t: OverlayType): (name: string)
    ensures name == "Unspecified" || (t.editorCategory.Some? && name == t.editorCategory.value)
    ensures t.editorCategory.Some? && t.editorCategory.value != "" ==> name == t.editorCategory.value
    ensures name != ""
  {
    match t.editorCategory
    case None => "Unspecified"
    case Some(c) => if c == "" then "Unspecified" else c
  }

  /** The texture of a frame slot: none for an empty slot. */
  function FrameTexture(frame: Option<ShapeFrame>): Option<Texture> {
    match frame
    case None => None
    case Some(f) => f.texture
  }

  /** The preview of a collection: the frame just before the middle,
      (Length / 2) - 1, of its first overlay type's graphics. A type without
      graphics raises NullReferenceException, and a single-frame image
      IndexOutOfRangeException (the index is -1); no frames give no preview. */
  function CollectionPreview(slot: Option<ShapeImage>): (r: Result<Option<Texture>, Exception>)
    ensures r.Failure? && r.error == NullReference <==> slot.None?
    ensures r.Failure? && r.error == IndexOutOfRange <==> slot.Some? && |slot.value.frames| == 1
    ensures slot.Some? && |slot.value.frames| == 0 ==> r == Success(None)
    ensures slot.Some? && |slot.value.frames| >= 2 ==>
      exists k :: 0 <= k < |slot.value.frames| && 2 * (k + 1) <= |slot.value.frames| < 2 * (k + 2)
        && r == Success(FrameTexture(slot.value.frames[k]))
  {
    match slot
    case None => Failure(NullReference)
    case Some(image) =>
      var frames := image.frames;
      if |frames| > 0 then
        var index := |frames| / 2 - 1;
        if index < 0 then Failure(IndexOutOfRange)
        else Success(FrameTexture(frames[index]))
      else Success(None)
  }

  /** Array.FindIndex(frames, f => f != null) from position `from` on. */
  function FirstFrameFrom(frames: seq<Option<ShapeFrame>>, from: nat): (r: int)
    requires from <= |frames|
    ensures r == -1 || from <= r < |frames|
    ensures r == -1 <==> forall k :: from <= k < |frames| ==> frames[k].None?
    ensures r != -1 ==> frames[r].Some? && forall k :: from <= k < r ==> frames[k].None?
    decreases |frames| - from
  {
    if from == |frames| then -1
    else if frames[from].Some? then from
    else FirstFrameFrom(frames, from + 1)
  }

  /** The preview of an overlay type: the texture of its first non-empty
      frame, or none when it has no graphics or no non-empty frame. */
  function OverlayPreview(slot: Option<ShapeImage>): (r: Option<Texture>)
    ensures slot.None? ==> r.None?
    ensures slot.Some? && (forall k :: 0 <= k < |slot.value.frames| ==> slot.value.frames[k].None?) ==> r.None?
    ensures slot.Some? && (exists k :: 0 <= k < |slot.value.frames| && slot.value.frames[k].Some?) ==>
      exists k :: 0 <= k < |slot.value.frames| && slot.value.frames[k].Some?
        && (forall j :: 0 <= j < k ==> slot.value.frames[j].None?)
        && r == slot.value.frames[k].value.texture
  {
    match slot
    case None => None
    case Some(image) =>
      if |image.frames| > 0 then
        var first := FirstFrameFrom(image.frames, 0);
        if first > -1 then image.frames[first].value.texture else None
      else None
  }

  /** Every collection that holds overlay types names one of the loaded graphics slots. */
  predicate CollectionsIndexTextures(collections: seq<OverlayCollection>, textures: seq<Option<ShapeImage>>) {
    forall k :: 0 <= k < |collections| && |collections[k].overlayTypes| > 0 ==> collections[k].overlayTypes[0] < |textures|
  }

  /** The "Collections" nodes of the first `n` collections, in order, or the
      first exception their previews raise. Collections without overlay types are skipped. */
  function CollectionNodes(collections: seq<OverlayCollection>, textures: seq<Option<ShapeImage>>): Result<seq<TreeNode>, Exception>
    requires CollectionsIndexTextures(collections, textures)
    decreases |collections|
  {
    if |collections| == 0 then Success([])
    else
      var init := collections[..|collections| - 1];
      var c := collections[|collections| - 1];
      match CollectionNodes(init, textures)
      case Failure(e) => Failure(e)
      case Success(nodes) =>
        if |c.overlayTypes| == 0 then Success(nodes)
        else match CollectionPreview(textures[c.overlayTypes[0]])
          case Failure(e) => Failure(e)
          case Success(texture) => Success(nodes + [TreeNode(c.name, texture, CollectionTag(c))])
  }

  /** The collection nodes fail exactly when some non-empty collection's preview fails. */
  lemma {:induction false} CollectionNodesFailure(collections: seq<OverlayCollection>, textures: seq<Option<ShapeImage>>)
    requires CollectionsIndexTextures(collections, textures)
    ensures CollectionNodes(collections, textures).Failure? <==>
      exists k :: 0 <= k < |collections| && |collections[k].overlayTypes| > 0
        && CollectionPreview(textures[collections[k].overlayTypes[0]]).Failure?
    decreases |collections|
  {
    if |collections| > 0 {
      var init := collections[..|collections| - 1];
      CollectionNodesFailure(init, textures);
      assert forall k :: 0 <= k < |init| ==> init[k] == collections[k];
    }
  }

  /** Every collection node is tagged with a collection that holds overlay
      types, and carries that collection's name. */
  lemma {:induction false} CollectionNodesTagged(collections: seq<OverlayCollection>, textures: seq<Option<ShapeImage>>)
    requires CollectionsIndexTextures(collections, textures)
    requires CollectionNodes(collections, textures).Success?
    ensures forall n :: n in CollectionNodes(collections, textures).value ==>
      n.tag.CollectionTag? && n.tag.collection in collections && |n.tag.collection.overlayTypes| > 0
      && n.text == n.tag.collection.name
    decreases |collections|
  {
    if |collections| > 0 {
      var init := collections[..|collections| - 1];
      assert forall k :: 0 <= k < |init| ==> init[k] == collections[k];
      CollectionNodesTagged(init, textures);
    }
  }

  /** How many of the collections hold overlay types. */
  function NonEmptyCount(cs: seq<OverlayCollection>): (n: nat)
    ensures n <= |cs|
    decreases |cs|
  {
    if |cs| == 0 then 0
    else NonEmptyCount(cs[..|cs| - 1]) + if |cs[|cs| - 1].overlayTypes| > 0 then 1 else 0
  }

  /** When the collections loop succeeds it yields exactly one node per
      collection holding overlay types, in the collections' order: the node
      of the k-th collection sits after those of the non-empty collections
      before it, and carries the collection's name, the preview of its first
      overlay type and the collection as its tag. */
  lemma {:induction false} CollectionNodesComplete(collections: seq<OverlayCollection>, textures: seq<Option<ShapeImage>>)
    requires CollectionsIndexTextures(collections, textures)
    requires CollectionNodes(collections, textures).Success?
    ensures |CollectionNodes(collections, textures).value| == NonEmptyCount(collections)
    ensures forall k :: 0 <= k < |collections| && |collections[k].overlayTypes| > 0 ==>
      && CollectionPreview(textures[collections[k].overlayTypes[0]]).Success?
      && NonEmptyCount(collections[..k]) < NonEmptyCount(collections)
      && CollectionNodes(collections, textures).value[NonEmptyCount(collections[..k])]
           == TreeNode(collections[k].name, CollectionPreview(textures[collections[k].overlayTypes[0]]).value,
                       CollectionTag(collections[k]))
    decreases |collections|
  {
    if |collections| > 0 {
      var n := |collections|;
      var init := collections[..n - 1];
      assert forall k :: 0 <= k < |init| ==> init[k] == collections[k];
      assert CollectionsIndexTextures(init, textures);
      CollectionNodesComplete(init, textures);
      var nodes := CollectionNodes(init, textures).value;
      var value := CollectionNodes(collections, textures).value;
      assert value[..|nodes|] == nodes;
      forall k | 0 <= k < n && |collections[k].overlayTypes| > 0
        ensures CollectionPreview(textures[collections[k].overlayTypes[0]]).Success?
        ensures NonEmptyCount(collections[..k]) < NonEmptyCount(collections)
        ensures value[NonEmptyCount(collections[..k])]
          == TreeNode(collections[k].name, CollectionPreview(textures[collections[k].overlayTypes[0]]).value,
                      CollectionTag(collections[k]))
      {
        if k < n - 1 {
          assert collections[..k] == init[..k];
          assert value[NonEmptyCount(init[..k])] == value[..|nodes|][NonEmptyCount(init[..k])];
        } else {
          assert collections[..k] == init;
        }
      }
    }
  }

  /** The node of the overlay type at position i. */
  function OverlayNode(t: OverlayType, i: nat, slot: Option<ShapeImage>): (n: TreeNode)
    ensures n.tag == OverlayTag(i)
  {
    TreeNode(t.name + " (" + t.iniName + ")", OverlayPreview(slot), OverlayTag(i))
  }

  /** The nodes of the first `n` overlay types, in order. */
  function OverlayNodes(types: seq<OverlayType>, textures: seq<Option<ShapeImage>>, n: nat): (r: seq<TreeNode>)
    requires n <= |types| <= |textures|
    ensures |r| == n
    ensures forall i :: 0 <= i < n ==> r[i] == OverlayNode(types[i], i, textures[i])
  {
    seq(n, i requires 0 <= i < n => OverlayNode(types[i], i, textures[i]))
  }

  /** All nodes of all categories, category by category. */
  function AllNodes(cats: seq<Category>): seq<TreeNode>
    decreases |cats|
  {
    if |cats| == 0 then [] else AllNodes(cats[..|cats| - 1]) + cats[|cats| - 1].nodes
  }

  /** Replacing one category's nodes replaces them in the whole tree. */
  lemma {:induction false} AllNodesUpdate(cats: seq<Category>, i: nat, c: Category)
    requires i < |cats|
    ensures multiset(AllNodes(cats[i := c])) + multiset(cats[i].nodes) == multiset(AllNodes(cats)) + multiset(c.nodes)
    decreases |cats|
  {
    var n := |cats|;
    var updated := cats[i := c];
    assert AllNodes(cats) == AllNodes(cats[..n - 1]) + cats[n - 1].nodes;
    assert AllNodes(updated) == AllNodes(updated[..n - 1]) + updated[n - 1].nodes;
    if i < n - 1 {
      assert updated[..n - 1] == cats[..n - 1][i := c];
      assert cats[..n - 1][i] == cats[i];
      assert updated[n - 1] == cats[n - 1];
      AllNodesUpdate(cats[..n - 1], i, c);
      assert multiset(AllNodes(updated)) == multiset(AllNodes(updated[..n - 1])) + multiset(cats[n - 1].nodes);
      assert multiset(AllNodes(cats)) == multiset(AllNodes(cats[..n - 1])) + multiset(cats[n - 1].nodes);
      var lhs := multiset(AllNodes(updated)) + multiset(cats[i].nodes);
      var rhs := multiset(AllNodes(cats)) + multiset(c.nodes);
      forall x ensures lhs[x] == rhs[x] {
        assert (multiset(AllNodes(cats[..n - 1][i := c])) + multiset(cats[i].nodes))[x]
          == (multiset(AllNodes(cats[..n - 1])) + multiset(c.nodes))[x];
      }
      assert lhs == rhs;
    } else {
      assert updated[..n - 1] == cats[..n - 1];
    }
  }

  /** The nodes a category at position `i` holds, none when it does not exist yet. */
  function NodesAt(cats: seq<Category>, i: nat): seq<TreeNode> {
    if i < |cats| then cats[i].nodes else []
  }

  /** One iteration of the overlay loop of InitOverlays: the type's category
      is found or made, the node is added to it and its nodes are ordered by
      text. No other category changes. */
  function PlaceNode(le: (string, string) -> bool, cats: seq<Category>, name: string, node: TreeNode): (p: Placement)
    requires TotalPreorder(le)
    ensures |cats| <= |p.categories| <= |cats| + 1
    ensures p.index < |p.categories| && p.categories[p.index].text == name
    ensures p.index < |cats| ==> cats[p.index].text == name
    ensures p.index == |cats| ==> forall k :: 0 <= k < |cats| ==> cats[k].text != name
    ensures forall k :: 0 <= k < |p.categories| && k != p.index ==> k < |cats| && p.categories[k] == cats[k]
    ensures multiset(p.categories[p.index].nodes) == multiset(NodesAt(cats, p.index)) + multiset{node}
    ensures Sorted(NodeText, le, p.categories[p.index].nodes)
    ensures multiset(AllNodes(p.categories)) == multiset(AllNodes(cats)) + multiset{node}
    ensures UniqueNames(cats) ==> UniqueNames(p.categories)
  {
    var found := FindOrMakeCategory(name, cats);
    var ci := found.index;
    FoundOrMade(cats, name, found);
    var added := found.categories[ci].nodes + [node];
    assert multiset(added) == multiset(NodesAt(cats, ci)) + multiset{node};
    var category := Category(name, Sort(NodeText, le, added));
    ReplaceCategory(cats, found, category, node);
    var r := found.categories[ci := category];
    assert |r| == |found.categories| && r[ci] == category;
    Placement(r, ci)
  }

  /** What PlaceNode uses of FindOrMakeCategory: the old categories stay at
      their positions, the found one holds the old nodes of its position, and
      a category is appended only when no old one has the name. */
  lemma FoundOrMade(cats: seq<Category>, name: string, found: Placement)
    requires found == FindOrMakeCategory(name, cats)
    ensures |cats| <= |found.categories| <= |cats| + 1
    ensures found.index < |found.categories| && found.categories[found.index].text == name
    ensures forall k :: 0 <= k < |cats| ==> found.categories[k] == cats[k]
    ensures found.index < |cats| ==> cats[found.index].text == name
    ensures found.index >= |cats| ==> found.index == |cats| && forall k :: 0 <= k < |cats| ==> cats[k].text != name
    ensures found.categories[found.index].nodes == NodesAt(cats, found.index)
    ensures found.categories == cats || (found.categories == cats + [Category(name, [])] && found.index == |cats|)
  {
    if exists k :: 0 <= k < |cats| && cats[k].text == name {
      assert found.categories == cats;
    } else {
      assert found.categories == cats + [Category(name, [])];
    }
  }

  /** Replacing the found-or-made category with `c` of the same name keeps
      the names unique, and the tree gains the node `c` has beyond the old category's. */
  lemma ReplaceCategory(cats: seq<Category>, found: Placement, c: Category, node: TreeNode)
    requires found.index < |found.categories| && c.text == found.categories[found.index].text
    requires found.categories == cats || (found.categories == cats + [Category(c.text, [])] && found.index == |cats|)
    requires UniqueNames(cats) ==> UniqueNames(found.categories)
    requires multiset(c.nodes) == multiset(NodesAt(cats, found.index)) + multiset{node}
    ensures UniqueNames(cats) ==> UniqueNames(found.categories[found.index := c])
    ensures multiset(AllNodes(found.categories[found.index := c])) == multiset(AllNodes(cats)) + multiset{node}
  {
    var r := found.categories[found.index := c];
    if UniqueNames(cats) {
      forall a, b | 0 <= a < b < |r|
        ensures r[a].text != r[b].text
      {
        assert r[a].text == found.categories[a].text && r[b].text == found.categories[b].text;
      }
    }
    if found.index == |cats| {
      assert r[..|cats|] == cats;
      assert AllNodes(r) == AllNodes(cats) + c.nodes;
    } else {
      assert r == cats[found.index := c];
      AddToExisting(cats, found.index, c, node);
    }
  }

  /** Replacing an existing category by one holding one more node adds that node to the tree. */
  lemma AddToExisting(cats: seq<Category>, i: nat, c: Category, node: TreeNode)
    requires i < |cats|
    requires multiset(c.nodes) == multiset(cats[i].nodes) + multiset{node}
    ensures multiset(AllNodes(cats[i := c])) == multiset(AllNodes(cats)) + multiset{node}
  {
    AllNodesUpdate(cats, i, c);
    var a := multiset(AllNodes(cats[i := c]));
    var b := multiset(AllNodes(cats));
    var old_ := multiset(cats[i].nodes);
    assert a + old_ == b + (old_ + multiset{node});
    forall x ensures a[x] == (b + multiset{node})[x] {
      assert (a + old_)[x] == (b + (old_ + multiset{node}))[x];
    }
    assert a == b + multiset{node};
  }

  /** The category holds a node of an overlay type. */
  predicate HasOverlayNode(c: Category) {
    exists k :: 0 <= k < |c.nodes| && c.nodes[k].tag.OverlayTag?
  }

  /** The shape of the tree after the first `i` overlay types were filed. */
  ghost predicate TreeInvariant(le: (string, string) -> bool, collections: seq<OverlayCollection>, types: seq<OverlayType>, i: nat, cats: seq<Category>)
    requires i <= |types|
  {
    && UniqueNames(cats)
    && (|collections| > 0 ==> |cats| > 0 && cats[0].text == "Collections")
    && (forall c :: 0 <= c < |cats| ==>
          (c == 0 && |collections| > 0 && cats[c].text == "Collections")
          || exists j :: 0 <= j < i && CategoryName(types[j]) == cats[c].text)
    && (forall c, k :: 0 <= c < |cats| && 0 <= k < |cats[c].nodes| && cats[c].nodes[k].tag.OverlayTag? ==>
          cats[c].nodes[k].tag.index < i && cats[c].text == CategoryName(types[cats[c].nodes[k].tag.index]))
    && (forall c, k :: 0 <= c < |cats| && 0 <= k < |cats[c].nodes| && cats[c].nodes[k].tag.CollectionTag? ==>
          c == 0 && cats[c].text == "Collections")
    && (forall c :: 0 <= c < |cats| && HasOverlayNode(cats[c]) ==> Sorted(NodeText, le, cats[c].nodes))
  }

  /** InitOverlays. On success: the category names are unique; "Collections"
      comes first when there are collections; every category is named after
      "Collections" or an overlay type's category; the tree holds exactly the
      collection nodes and one node per overlay type, each type's node in the
      category named for it; and every category holding an overlay node is
      ordered by text. It fails exactly when a collection preview fails. */
  method InitOverlays(le: (string, string) -> bool, collections: seq<OverlayCollection>, types: seq<OverlayType>, textures: seq<Option<ShapeImage>>)
    returns (r: Result<seq<Category>, Exception>)
    requires TotalPreorder(le)
    requires |textures| == |types|
    requires CollectionsIndexTextures(collections, textures)
    ensures r.Failure? <==> CollectionNodes(collections, textures).Failure?
    ensures r.Failure? ==> r.error == CollectionNodes(collections, textures).error
    ensures r.Success? ==> TreeInvariant(le, collections, types, |types|, r.value)
    ensures r.Success? ==>
      multiset(AllNodes(r.value)) == multiset(CollectionNodes(collections, textures).value) + multiset(OverlayNodes(types, textures, |types|))
  {
    var built := BuildCollectionNodes(collections, textures);
    if built.Failure? {
      return Failure(built.error);
    }
    var collectionNodes := built.value;
    var categories: seq<Category> := [];
    if |collections| > 0 {
      categories := [Category("Collections", collectionNodes)];
    }
    InitialTree(le, collections, types, textures, categories);
    categories := FileOverlayTypes(le, collections, types, textures, categories, collectionNodes);
    return Success(categories);
  }

  /** Before the overlay loop the tree holds the "Collections" category
      alone, or nothing when there are no collections (then there are no
      collection nodes either). */
  lemma InitialTree(le: (string, string) -> bool, collections: seq<OverlayCollection>, types: seq<OverlayType>,
                    textures: seq<Option<ShapeImage>>, initial: seq<Category>)
    requires CollectionsIndexTextures(collections, textures)
    requires CollectionNodes(collections, textures).Success?
    requires initial == if |collections| > 0 then [Category("Collections", CollectionNodes(collections, textures).value)] else []
    ensures TreeInvariant(le, collections, types, 0, initial)
    ensures multiset(AllNodes(initial)) == multiset(CollectionNodes(collections, textures).value)
  {
    var collectionNodes := CollectionNodes(collections, textures).value;
    CollectionNodesTagged(collections, textures);
    if |collections| > 0 {
      assert AllNodes(initial) == AllNodes(initial[..0]) + collectionNodes;
      CollectionsCategoryShape(le, collections, types, collectionNodes);
    } else {
      assert collectionNodes == [];
    }
  }

  /** A lone "Collections" category of collection nodes has the tree's shape before any overlay type is filed. */
  lemma CollectionsCategoryShape(le: (string, string) -> bool, collections: seq<OverlayCollection>, types: seq<OverlayType>,
                                 collectionNodes: seq<TreeNode>)
    requires |collections| > 0
    requires forall n :: n in collectionNodes ==> n.tag.CollectionTag?
    ensures TreeInvariant(le, collections, types, 0, [Category("Collections", collectionNodes)])
  {
    var cats := [Category("Collections", collectionNodes)];
    assert forall c, k :: 0 <= c < |cats| && 0 <= k < |cats[c].nodes| ==> cats[c].nodes[k].tag.CollectionTag? by {
      forall c, k | 0 <= c < |cats| && 0 <= k < |cats[c].nodes|
        ensures cats[c].nodes[k].tag.CollectionTag?
      {
        assert cats[c].nodes[k] in collectionNodes;
      }
    }
    assert !HasOverlayNode(cats[0]);
  }

  /** The collections loop of InitOverlays: the nodes of the non-empty
      collections in order, or the first exception a preview raises. */
  method BuildCollectionNodes(collections: seq<OverlayCollection>, textures: seq<Option<ShapeImage>>)
    returns (r: Result<seq<TreeNode>, Exception>)
    requires CollectionsIndexTextures(collections, textures)
    ensures r == CollectionNodes(collections, textures)
    ensures r.Failure? <==>
      exists k :: 0 <= k < |collections| && |collections[k].overlayTypes| > 0
        && CollectionPreview(textures[collections[k].overlayTypes[0]]).Failure?
    ensures r.Success? ==> |r.value| == NonEmptyCount(collections)
    ensures r.Success? ==> forall k :: 0 <= k < |collections| && |collections[k].overlayTypes| > 0 ==>
      && CollectionPreview(textures[collections[k].overlayTypes[0]]).Success?
      && NonEmptyCount(collections[..k]) < |r.value|
      && r.value[NonEmptyCount(collections[..k])]
           == TreeNode(collections[k].name, CollectionPreview(textures[collections[k].overlayTypes[0]]).value,
                       CollectionTag(collections[k]))
  {
    CollectionNodesFailure(collections, textures);
    var nodes: seq<TreeNode> := [];
    for k := 0 to |collections|
      invariant CollectionNodes(collections[..k], textures) == Success(nodes)
    {
      assert collections[..k + 1][..k] == collections[..k];
      var collection := collections[k];
      if |collection.overlayTypes| == 0 {
        continue;
      }
      var preview := CollectionPreview(textures[collection.overlayTypes[0]]);
      if preview.Failure? {
        CollectionFailurePersists(collections, textures, k + 1);
        return Failure(preview.error);
      }
      nodes := nodes + [TreeNode(collection.name, preview.value, CollectionTag(collection))];
    }
    assert collections[..|collections|] == collections;
    CollectionNodesComplete(collections, textures);
    return Success(nodes);
  }

  /** The overlay-type loop of InitOverlays: each type's node filed under its
      category, the category re-sorted after each addition. */
  method FileOverlayTypes(le: (string, string) -> bool, collections: seq<OverlayCollection>, types: seq<OverlayType>,
                          textures: seq<Option<ShapeImage>>, initial: seq<Category>, collectionNodes: seq<TreeNode>)
    returns (categories: seq<Category>)
    requires TotalPreorder(le)
    requires |textures| == |types|
    requires TreeInvariant(le, collections, types, 0, initial)
    requires multiset(AllNodes(initial)) == multiset(collectionNodes)
    ensures TreeInvariant(le, collections, types, |types|, categories)
    ensures multiset(AllNodes(categories)) == multiset(collectionNodes) + multiset(OverlayNodes(types, textures, |types|))
  {
    categories := initial;
    for i := 0 to |types|
      invariant TreeInvariant(le, collections, types, i, categories)
      invariant multiset(AllNodes(categories)) == multiset(collectionNodes) + multiset(OverlayNodes(types, textures, i))
    {
      FilingStep(le, collections, types, textures, collectionNodes, i, categories);
      categories := PlaceNode(le, categories, CategoryName(types[i]), OverlayNode(types[i], i, textures[i])).categories;
    }
  }

  /** One iteration of the overlay loop keeps the shape invariant and adds
      the type's node to the tree. */
  lemma FilingStep(le: (string, string) -> bool, collections: seq<OverlayCollection>, types: seq<OverlayType>,
                   textures: seq<Option<ShapeImage>>, collectionNodes: seq<TreeNode>, i: nat, categories: seq<Category>)
    requires TotalPreorder(le)
    requires i < |types| == |textures|
    requires TreeInvariant(le, collections, types, i, categories)
    requires multiset(AllNodes(categories)) == multiset(collectionNodes) + multiset(OverlayNodes(types, textures, i))
    ensures var placed := PlaceNode(le, categories, CategoryName(types[i]), OverlayNode(types[i], i, textures[i]));
      && TreeInvariant(le, collections, types, i + 1, placed.categories)
      && multiset(AllNodes(placed.categories)) == multiset(collectionNodes) + multiset(OverlayNodes(types, textures, i + 1))
  {
    var name := CategoryName(types[i]);
    var node := OverlayNode(types[i], i, textures[i]);
    var placed := PlaceNode(le, categories, name, node);
    PlacementKeepsInvariant(le, collections, types, i, categories, name, node, placed);
    OverlayNodesStep(types, textures, i);
    MultisetStep(AllNodes(categories), AllNodes(placed.categories), collectionNodes, OverlayNodes(types, textures, i), node);
  }

  /** One more overlay type adds its node at the end. */
  lemma OverlayNodesStep(types: seq<OverlayType>, textures: seq<Option<ShapeImage>>, i: nat)
    requires i < |types| <= |textures|
    ensures OverlayNodes(types, textures, i + 1) == OverlayNodes(types, textures, i) + [OverlayNode(types[i], i, textures[i])]
  {
  }

  /** The node count bookkeeping of one loop iteration. */
  lemma MultisetStep<T>(before: seq<T>, after: seq<T>, fixed: seq<T>, added: seq<T>, x: T)
    requires multiset(before) == multiset(fixed) + multiset(added)
    requires multiset(after) == multiset(before) + multiset{x}
    ensures multiset(after) == multiset(fixed) + multiset(added + [x])
  {
    assert multiset(added + [x]) == multiset(added) + multiset{x};
  }

  /** A failing collection preview makes every longer prefix fail with the same error. */
  lemma {:induction false} CollectionFailurePersists(collections: seq<OverlayCollection>, textures: seq<Option<ShapeImage>>, n: nat)
    requires CollectionsIndexTextures(collections, textures)
    requires 0 < n <= |collections|
    requires CollectionNodes(collections[..n], textures).Failure?
    ensures CollectionNodes(collections, textures) == CollectionNodes(collections[..n], textures)
    decreases |collections| - n
  {
    if n < |collections| {
      assert collections[..n + 1][..n] == collections[..n];
      CollectionFailurePersists(collections, textures, n + 1);
    } else {
      assert collections[..n] == collections;
    }
  }

  /** What filing a node under `name` does to the category list, as PlaceNode guarantees. */
  ghost predicate PlacedUnder(cats: seq<Category>, name: string, node: TreeNode, p: Placement) {
    && |cats| <= |p.categories|
    && p.index < |p.categories| && p.categories[p.index].text == name
    && (forall k :: 0 <= k < |p.categories| && k != p.index ==> k < |cats| && p.categories[k] == cats[k])
    && (p.index < |cats| ==> cats[p.index].text == name)
    && multiset(p.categories[p.index].nodes) == multiset(NodesAt(cats, p.index)) + multiset{node}
  }

  /** A category other than the one filed into is one of the old categories, unchanged. */
  lemma PlacedElsewhere(cats: seq<Category>, name: string, node: TreeNode, p: Placement, c: nat)
    requires PlacedUnder(cats, name, node, p)
    requires c < |p.categories| && c != p.index
    ensures c < |cats| && p.categories[c] == cats[c]
  {
  }

  /** Filing the node of type `i` keeps the tree invariant, now over the first i + 1 types. */
  lemma PlacementKeepsInvariant(le: (string, string) -> bool, collections: seq<OverlayCollection>, types: seq<OverlayType>, i: nat,
                                cats: seq<Category>, name: string, node: TreeNode, p: Placement)
    requires TotalPreorder(le)
    requires i < |types|
    requires TreeInvariant(le, collections, types, i, cats)
    requires name == CategoryName(types[i]) && node.tag == OverlayTag(i)
    requires p == PlaceNode(le, cats, name, node)
    ensures TreeInvariant(le, collections, types, i + 1, p.categories)
  {
    assert PlacedUnder(cats, name, node, p);
    PlacementKeepsTags(collections, types, i, cats, name, node, p);
    PlacementKeepsNames(collections, types, i, cats, name, node, p);
    PlacementKeepsSorted(le, cats, name, node, p);
  }

  /** Every overlay node stays in the category named for its type, and collection nodes stay in "Collections". */
  lemma PlacementKeepsTags(collections: seq<OverlayCollection>, types: seq<OverlayType>, i: nat,
                           cats: seq<Category>, name: string, node: TreeNode, p: Placement)
    requires i < |types|
    requires name == CategoryName(types[i]) && node.tag == OverlayTag(i)
    requires PlacedUnder(cats, name, node, p)
    requires forall c, k :: 0 <= c < |cats| && 0 <= k < |cats[c].nodes| && cats[c].nodes[k].tag.OverlayTag? ==>
      cats[c].nodes[k].tag.index < i && cats[c].text == CategoryName(types[cats[c].nodes[k].tag.index])
    requires forall c, k :: 0 <= c < |cats| && 0 <= k < |cats[c].nodes| && cats[c].nodes[k].tag.CollectionTag? ==>
      c == 0 && cats[c].text == "Collections"
    ensures forall c, k :: 0 <= c < |p.categories| && 0 <= k < |p.categories[c].nodes| && p.categories[c].nodes[k].tag.OverlayTag? ==>
      p.categories[c].nodes[k].tag.index < i + 1 && p.categories[c].text == CategoryName(types[p.categories[c].nodes[k].tag.index])
    ensures forall c, k :: 0 <= c < |p.categories| && 0 <= k < |p.categories[c].nodes| && p.categories[c].nodes[k].tag.CollectionTag? ==>
      c == 0 && p.categories[c].text == "Collections"
  {
    var r := p.categories;
    forall c, k | 0 <= c < |r| && 0 <= k < |r[c].nodes|
      ensures r[c].nodes[k].tag.OverlayTag? ==>
        r[c].nodes[k].tag.index < i + 1 && r[c].text == CategoryName(types[r[c].nodes[k].tag.index])
      ensures r[c].nodes[k].tag.CollectionTag? ==> c == 0 && r[c].text == "Collections"
    {
      if c == p.index {
        var n := r[c].nodes[k];
        assert n in multiset(NodesAt(cats, p.index)) + multiset{node};
        if n != node {
          assert n in NodesAt(cats, p.index);
          var k' :| 0 <= k' < |cats[c].nodes| && cats[c].nodes[k'] == n;
        }
      }
    }
  }

  /** Names stay unique, "Collections" stays first, and every category is named after "Collections" or a filed type. */
  lemma PlacementKeepsNames(collections: seq<OverlayCollection>, types: seq<OverlayType>, i: nat,
                            cats: seq<Category>, name: string, node: TreeNode, p: Placement)
    requires i < |types|
    requires name == CategoryName(types[i])
    requires PlacedUnder(cats, name, node, p)
    requires UniqueNames(cats) ==> UniqueNames(p.categories)
    requires UniqueNames(cats)
    requires |collections| > 0 ==> |cats| > 0 && cats[0].text == "Collections"
    requires forall c :: 0 <= c < |cats| ==>
      (c == 0 && |collections| > 0 && cats[c].text == "Collections")
      || exists j :: 0 <= j < i && CategoryName(types[j]) == cats[c].text
    ensures UniqueNames(p.categories)
    ensures |collections| > 0 ==> |p.categories| > 0 && p.categories[0].text == "Collections"
    ensures forall c :: 0 <= c < |p.categories| ==>
      (c == 0 && |collections| > 0 && p.categories[c].text == "Collections")
      || exists j :: 0 <= j < i + 1 && CategoryName(types[j]) == p.categories[c].text
  {
    var r := p.categories;
    forall c | 0 <= c < |r|
      ensures (c == 0 && |collections| > 0 && r[c].text == "Collections")
              || exists j :: 0 <= j < i + 1 && CategoryName(types[j]) == r[c].text
    {
      if c == p.index {
        assert CategoryName(types[i]) == r[c].text;
      } else {
        PlacedElsewhere(cats, name, node, p, c);
      }
    }
  }

  /** Every category holding an overlay node stays ordered by text. */
  lemma PlacementKeepsSorted(le: (string, string) -> bool, cats: seq<Category>, name: string, node: TreeNode, p: Placement)
    requires PlacedUnder(cats, name, node, p)
    requires Sorted(NodeText, le, p.categories[p.index].nodes)
    requires forall c :: 0 <= c < |cats| && HasOverlayNode(cats[c]) ==> Sorted(NodeText, le, cats[c].nodes)
    ensures forall c :: 0 <= c < |p.categories| && HasOverlayNode(p.categories[c]) ==> Sorted(NodeText, le, p.categories[c].nodes)
  {
    forall c | 0 <= c < |p.categories| && HasOverlayNode(p.categories[c])
      ensures Sorted(NodeText, le, p.categories[c].nodes)
    {
      if c != p.index {
        PlacedElsewhere(cats, name, node, p, c);
      }
    }
  }

  /** Each overlay type's node occurs in the tree exactly once. */
  lemma OverlayNodeOnce(le: (string, string) -> bool, collections: seq<OverlayCollection>, types: seq<OverlayType>,
                        textures: seq<Option<ShapeImage>>, cats: seq<Category>, i: nat)
    requires |textures| == |types| && i < |types|
    requires CollectionsIndexTextures(collections, textures)
    requires CollectionNodes(collections, textures).Success?
    requires multiset(AllNodes(cats))
      == multiset(CollectionNodes(collections, textures).value) + multiset(OverlayNodes(types, textures, |types|))
    ensures multiset(AllNodes(cats))[OverlayNode(types[i], i, textures[i])] == 1
  {
    var node := OverlayNode(types[i], i, textures[i]);
    var overlays := OverlayNodes(types, textures, |types|);
    CollectionNodesTagged(collections, textures);
    assert node !in CollectionNodes(collections, textures).value;
    OccursOnce(overlays, i);
  }

  /** In a sequence of nodes tagged with their own positions, each occurs once. */
  lemma {:induction false} OccursOnce(nodes: seq<TreeNode>, i: nat)
    requires i < |nodes|
    requires forall k :: 0 <= k < |nodes| ==> nodes[k].tag == OverlayTag(k)
    ensures multiset(nodes)[nodes[i]] == 1
    decreases |nodes|
  {
    var last := |nodes| - 1;
    assert nodes == nodes[..last] + [nodes[last]];
    if i < last {
      OccursOnce(nodes[..last], i);
      assert nodes[last] != nodes[i];
    } else {
      assert nodes[i] !in nodes[..last];
    }
  }
}
