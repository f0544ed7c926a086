/** CategorySerializer and BrandSerializer: the JSON shape of a category
    (with its full path and its nested children) and of a brand. The
    product_count field is not modelled. */
module Serializers {
  import opened Models
  import opened CategoryTree

  /** The fields CategorySerializer emits for one category. `image` is the
      stored asset's public id. */
  datatype CategoryOut = CategoryOut(
    id: Id,
    name: string,
    slug: string,
    parent: Option<Id>,
    image: Option<string>,
    imageUrl: Option<string>,
    icon: string,
    metaTitle: string,
    metaDescription: string,
    isActive: bool,
    sortOrder: nat,
    createdAt: int,
    updatedAt: int,
    fullPath: string,
    children: seq<CategoryOut>)

  /** The fields BrandSerializer emits for one brand. */
  datatype BrandOut = BrandOut(
    id: Id,
    name: string,
    slug: string,
    description: string,
    websiteUrl: Option<string>,
    logo: Option<string>,
    logoUrl: Option<string>,
    isActive: bool,
    isFeatured: bool,
    metaTitle: string,
    metaDescription: string,
    createdAt: int,
    updatedAt: int)

  function PublicId(a: Option<Asset>): Option<string>
  {
    match a
    case None => None
    case Some(asset) => Some(asset.publicId)
  }

  /** CategorySerializer.get_image_url: the image's URL, or null when the
      category has no image. */
  function ImageUrl(c: Category): (u: Option<string>)
    ensures u.None? <==> c.image.None?
    ensures c.image.Some? ==> u == Some(c.image.value.url)
  {
    match c.image
    case None => None
    case Some(a) => Some(a.url)
  }

  /** BrandSerializer.get_logo_url: the logo's URL, or null when the brand
      has no logo. */
  function LogoUrl(b: Brand): (u: Option<string>)
    ensures u.None? <==> b.logo.None?
    ensures b.logo.Some? ==> u == Some(b.logo.value.url)
  {
    match b.logo
    case None => None
    case Some(a) => Some(a.url)
  }

  /** The ids of a list of serialised categories, in order. */
  function Ids(ts: seq<CategoryOut>): seq<Id>
  {
    seq(|ts|, i requires 0 <= i < |ts| => ts[i].id)
  }

  /** The ids of a serialised category's `children`, in output order. */
  function ChildOrder(t: CategoryOut): seq<Id>
  {
    Ids(t.children)
  }

  /** A child's lineage is one longer than its parent's, and never longer
      than the forest: the measure of the recursion below. */
  lemma ChildIsDeeper(m: Forest, x: Id, c: Id)
    requires Valid(m) && x in m && c in ChildIds(m, x)
    ensures |Lineage(m, x)| < |Lineage(m, c)| <= |m|
  {
    LineageStep(m, c);
    LineageIsRootPath(m, c);
  }

  /** CategorySerializer applied to category `id`: its own fields, its full
      path, and its direct children ordered by sort_order, each serialised
      recursively (get_children). */
  function SerializeCategory(m: Forest, id: Id): (t: CategoryOut)
    requires Valid(m) && id in m
    ensures t.id == id && t.sortOrder == m[id].sortOrder
    ensures t.fullPath == FullPath(m, id)
    ensures t.imageUrl.None? <==> m[id].image.None?
    ensures OrderedListing(m, ChildIds(m, id), ChildOrder(t))
    ensures t.children == [] <==> ChildIds(m, id) == {}
    decreases |m| - |Lineage(m, id)|, 1, 0
  {
    var kids := OrderBySortOrder(m, ChildIds(m, id));
    var children := SerializeChildren(m, id, kids);
    Node(id, m[id], FullPath(m, id), children)
  }

  /** The `children` field: the given children of `x`, each serialised, in
      the given order. */
  function SerializeChildren(m: Forest, x: Id, kids: seq<Id>): (r: seq<CategoryOut>)
    requires Valid(m) && x in m
    requires forall i :: 0 <= i < |kids| ==> kids[i] in ChildIds(m, x)
    ensures Ids(r) == kids
    decreases |m| - |Lineage(m, x)|, 0, |kids|
  {
    if kids == [] then []
    else
      ChildIsDeeper(m, x, kids[0]);
      var head := SerializeCategory(m, kids[0]);
      var tail := SerializeChildren(m, x, kids[1..]);
      IdsCons(head, tail);
      assert kids == [kids[0]] + kids[1..];
      [head] + tail
  }

  lemma IdsCons(t: CategoryOut, ts: seq<CategoryOut>)
    ensures Ids([t] + ts) == [t.id] + Ids(ts)
  {
    var l, r := Ids([t] + ts), [t.id] + Ids(ts);
    assert |l| == |r|;
    forall i | 0 <= i < |l|
      ensures l[i] == r[i]
    {
      if i > 0 {
        assert ([t] + ts)[i] == ts[i - 1];
      }
    }
  }

  /** One category's own fields, with the given full path and children. */
  function Node(id: Id, c: Category, fullPath: string, children: seq<CategoryOut>): (t: CategoryOut)
    ensures t.id == id && t.sortOrder == c.sortOrder && t.fullPath == fullPath
    ensures t.name == c.name && t.slug == c.slug && t.parent == c.parent && t.isActive == c.isActive
    ensures t.imageUrl.None? <==> c.image.None?
    ensures t.createdAt == c.createdAt && t.updatedAt == c.updatedAt
    ensures t.children == children
  {
    CategoryOut(id, c.name, c.slug, c.parent, PublicId(c.image), ImageUrl(c),
      c.icon, c.metaTitle, c.metaDescription, c.isActive, c.sortOrder, c.createdAt,
      c.updatedAt, fullPath, children)
  }

  /** BrandSerializer applied to brand `id`. */
  function SerializeBrand(id: Id, b: Brand): (t: BrandOut)
    ensures t.id == id && t.slug == b.slug
    ensures t.logoUrl.None? <==> b.logo.None?
  {
    BrandOut(id, b.name, b.slug, b.description, b.websiteUrl, PublicId(b.logo), LogoUrl(b),
      b.isActive, b.isFeatured, b.metaTitle, b.metaDescription, b.createdAt, b.updatedAt)
  }

  /** The ids of every category in a nested output, in pre-order. */
  function Flatten(t: CategoryOut): seq<Id>
    decreases t
  {
    [t.id] + Concat(seq(|t.children|, i requires 0 <= i < |t.children| => Flatten(t.children[i])))
  }

  function Concat(parts: seq<seq<Id>>): seq<Id>
  {
    if parts == [] then [] else parts[0] + Concat(parts[1..])
  }

  lemma {:induction false} ConcatMember(parts: seq<seq<Id>>, y: Id)
    ensures y in Concat(parts) <==> exists i :: 0 <= i < |parts| && y in parts[i]
  {
    if parts != [] {
      ConcatMember(parts[1..], y);
      if exists i :: 0 <= i < |parts| && y in parts[i] {
        var i :| 0 <= i < |parts| && y in parts[i];
        if i > 0 {
          assert y in parts[1..][i - 1];
        }
      }
      if exists i :: 0 <= i < |parts[1..]| && y in parts[1..][i] {
        var i :| 0 <= i < |parts[1..]| && y in parts[1..][i];
        assert y in parts[i + 1];
      }
    }
  }

  /** Parts without repetition and pairwise disjoint concatenate to a
      sequence without repetition. */
  lemma {:induction false} ConcatDistinct(parts: seq<seq<Id>>)
    requires forall i :: 0 <= i < |parts| ==> Distinct(parts[i])
    requires forall i, j, y :: 0 <= i < j < |parts| && y in parts[i] ==> y !in parts[j]
    ensures Distinct(Concat(parts))
  {
    if parts != [] {
      var rest := parts[1..];
      ConcatDistinct(rest);
      var h, t := parts[0], Concat(rest);
      forall y | y in h
        ensures y !in t
      {
        ConcatMember(rest, y);
      }
      var s := h + t;
      forall i, j | 0 <= i < j < |s|
        ensures s[i] != s[j]
      {
        if i < |h| && j >= |h| {
          assert s[i] in h && s[j] == t[j - |h|];
        }
      }
    }
  }

  /** A category is never among the descendants of its own child. */
  lemma NotOwnDescendant(m: Forest, x: Id, c: Id)
    requires Valid(m) && x in m && c in ChildIds(m, x)
    ensures x !in Descendants(m, c)
  {
    LineageStep(m, c);
    var lx := Lineage(m, x);
    if c in lx {
      var k :| 0 <= k < |lx| && lx[k] == c;
      LineageSuffix(m, x, k);
    }
  }

  /** The subtrees of two different children share no category. */
  lemma SiblingSubtreesDisjoint(m: Forest, x: Id, c1: Id, c2: Id, y: Id)
    requires Valid(m) && x in m && c1 in ChildIds(m, x) && c2 in ChildIds(m, x)
    requires y in Descendants(m, c1) && y in Descendants(m, c2)
    ensures c1 == c2
  {
    var l := Lineage(m, y);
    LineageIsRootPath(m, y);
    LineageDistinct(m, y);
    var i1 :| 0 <= i1 < |l| && l[i1] == c1;
    var i2 :| 0 <= i2 < |l| && l[i2] == c2;
    assert i1 < |l| - 1 && l[i1 + 1] == x;
    assert i2 < |l| - 1 && l[i2 + 1] == x;
  }

  /** Each nested child is the child category serialised on its own. */
  lemma ChildrenSerialized(m: Forest, x: Id, i: nat)
    requires Valid(m) && x in m && i < |SerializeCategory(m, x).children|
    ensures ChildOrder(SerializeCategory(m, x))[i] in ChildIds(m, x)
    ensures SerializeCategory(m, x).children[i]
      == SerializeCategory(m, ChildOrder(SerializeCategory(m, x))[i])
  {
    var kids := OrderBySortOrder(m, ChildIds(m, x));
    var t := SerializeCategory(m, x);
    assert t.children == SerializeChildren(m, x, kids);
    SerializedChildAt(m, x, kids, i);
  }

  /** The i-th entry of a serialised list of children is the i-th child
      serialised on its own. */
  lemma {:induction false} SerializedChildAt(m: Forest, x: Id, kids: seq<Id>, i: nat)
    requires Valid(m) && x in m && i < |kids|
    requires forall j :: 0 <= j < |kids| ==> kids[j] in ChildIds(m, x)
    ensures SerializeChildren(m, x, kids)[i] == SerializeCategory(m, kids[i])
    decreases i
  {
    var tail := kids[1..];
    var all := SerializeChildren(m, x, kids);
    var rest := SerializeChildren(m, x, tail);
    assert all == [SerializeCategory(m, kids[0])] + rest;
    if i > 0 {
      SerializedChildAt(m, x, tail, i - 1);
      assert all[i] == rest[i - 1];
      assert tail[i - 1] == kids[i];
    }
  }

  /** The pieces of Flatten for a serialised category: its id, then the
      flattened children in order. */
  function Parts(t: CategoryOut): seq<seq<Id>>
  {
    seq(|t.children|, i requires 0 <= i < |t.children| => Flatten(t.children[i]))
  }

  /** A category appears in the nested output of `x` exactly when it is in
      the subtree of `x`. */
  lemma {:induction false} SubtreeMember(m: Forest, x: Id, y: Id)
    requires Valid(m) && x in m
    ensures y in Flatten(SerializeCategory(m, x)) <==> y in Descendants(m, x)
    decreases |m| - |Lineage(m, x)|
  {
    var t := SerializeCategory(m, x);
    var kids := ChildOrder(t);
    var parts := Parts(t);
    assert Flatten(t) == [x] + Concat(parts);
    ConcatMember(parts, y);
    DescendantsStep(m, x, y);
    if y != x {
      if y in Concat(parts) {
        var i :| 0 <= i < |parts| && y in parts[i];
        ChildrenSerialized(m, x, i);
        ChildIsDeeper(m, x, kids[i]);
        SubtreeMember(m, kids[i], y);
      }
      if y in Descendants(m, x) {
        var c :| c in ChildIds(m, x) && y in Descendants(m, c);
        var i :| 0 <= i < |kids| && kids[i] == c;
        ChildrenSerialized(m, x, i);
        ChildIsDeeper(m, x, c);
        SubtreeMember(m, c, y);
        assert y in parts[i];
      }
    }
  }

  /** The nested output of a category holds exactly the categories of its
      subtree. */
  lemma SubtreeMembers(m: Forest, x: Id)
    requires Valid(m) && x in m
    ensures forall y :: y in Flatten(SerializeCategory(m, x)) <==> y in Descendants(m, x)
  {
    forall y
      ensures y in Flatten(SerializeCategory(m, x)) <==> y in Descendants(m, x)
    {
      SubtreeMember(m, x, y);
    }
  }

  /** No category appears twice in the nested output of a category. */
  lemma {:induction false} SubtreeDistinct(m: Forest, x: Id)
    requires Valid(m) && x in m
    ensures Distinct(Flatten(SerializeCategory(m, x)))
    decreases |m| - |Lineage(m, x)|
  {
    var t := SerializeCategory(m, x);
    var kids := ChildOrder(t);
    var parts := Parts(t);
    assert Flatten(t) == [x] + Concat(parts);
    forall i | 0 <= i < |kids|
      ensures Distinct(parts[i])
      ensures forall y :: y in parts[i] <==> y in Descendants(m, kids[i])
    {
      ChildrenSerialized(m, x, i);
      ChildIsDeeper(m, x, kids[i]);
      SubtreeDistinct(m, kids[i]);
      SubtreeMembers(m, kids[i]);
    }
    forall i, j, y | 0 <= i < j < |parts| && y in parts[i]
      ensures y !in parts[j]
    {
      if y in parts[j] {
        SiblingSubtreesDisjoint(m, x, kids[i], kids[j], y);
      }
    }
    ConcatDistinct(parts);
    forall i | 0 <= i < |parts|
      ensures x !in parts[i]
    {
      NotOwnDescendant(m, x, kids[i]);
    }
    ConcatMember(parts, x);
  }
}
