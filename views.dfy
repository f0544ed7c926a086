/** The API over the catalog store: the querysets of CategoryViewSet and
    BrandViewSet (staff see everything, everyone else only active records),
    lookup by slug, the `tree` and `root` actions, and the delete guard that
    refuses to remove a record that has products. Saving (Category.save /
    Brand.save with their unique-slug loop) and deleting are methods of the
    store, which holds both tables. */
module Views {
  import opened Models
  import opened CategoryTree
  import opened Serializers
  import Slugs

  type BrandTable = map<Id, Brand>

  /** The responses of `destroy`. */
  datatype Response = NoContent | BadRequest(error: string) | NotFound

  /** The HTTP status of a response. */
  function StatusCode(r: Response): nat
  {
    match r
    case NoContent => 204
    case BadRequest(_) => 400
    case NotFound => 404
  }

  const CategoryHasProducts: string := "Cannot delete category with products. Deactivate instead."
  const BrandHasProducts: string := "Cannot delete brand with products. Use is_active=False instead."

  /** How a category save ends: stored with its slug, or refused by the slug
      unique constraint, by the parent foreign key, or by MPTT because the
      new parent lies in the category's own subtree. */
  datatype CategorySaveOutcome =
    | CategorySaved(slug: string)
    | CategorySlugTaken
    | ParentMissing
    | ParentInSubtree

  /** How a brand save ends: stored with its slug, or refused by the unique
      constraint on slug or on name. */
  datatype BrandSaveOutcome =
    | BrandSaved(slug: string)
    | BrandSlugTaken
    | BrandNameTaken

  /** The slug column of a table. */
  function CategorySlugs(m: Forest): map<Id, string>
  {
    map id | id in m :: m[id].slug
  }

  function BrandSlugs(b: BrandTable): map<Id, string>
  {
    map id | id in b :: b[id].slug
  }

  /** No two rows share a value of the column (a `unique=True` field). */
  ghost predicate Unique(column: map<Id, string>)
  {
    forall a, b :: a in column && b in column && column[a] == column[b] ==> a == b
  }

  /** `get_object()` with lookup_field = 'slug': the one row whose slug is
      `slug`, or nothing (404). */
  function FindBySlug(column: map<Id, string>, slug: string): (r: Option<Id>)
    requires Unique(column)
    ensures r.None? <==> slug !in column.Values
    ensures r.Some? ==> r.value in column && column[r.value] == slug
    ensures r.Some? ==> forall id :: id in column && column[id] == slug ==> id == r.value
  {
    if slug in column.Values then
      Some(var id :| id in column && column[id] == slug; id)
    else
      None
  }

  /** CategoryViewSet.get_queryset: all categories for staff, only the active
      ones for everyone else. */
  function CategoryQueryset(m: Forest, staff: bool): (r: Forest)
    ensures forall id :: id in r <==> id in m && (staff || m[id].isActive)
    ensures forall id :: id in r ==> r[id] == m[id]
  {
    if staff then m else map id | id in m && m[id].isActive :: m[id]
  }

  /** BrandViewSet.get_queryset: all brands for staff, only the active ones
      for everyone else. */
  function BrandQueryset(b: BrandTable, staff: bool): (r: BrandTable)
    ensures forall id :: id in r <==> id in b && (staff || b[id].isActive)
    ensures forall id :: id in r ==> r[id] == b[id]
  {
    if staff then b else map id | id in b && b[id].isActive :: b[id]
  }

  /** The name column of the brand table. */
  function BrandNames(b: BrandTable): map<Id, string>
  {
    map id | id in b :: b[id].name
  }

  /** A column that is unique stays unique in any part of the table. */
  lemma UniqueInPart(column: map<Id, string>, part: map<Id, string>)
    requires Unique(column)
    requires forall id :: id in part ==> id in column && part[id] == column[id]
    ensures Unique(part)
  {
  }

  lemma UniqueInQueryset(m: Forest, staff: bool)
    requires Unique(CategorySlugs(m))
    ensures Unique(CategorySlugs(CategoryQueryset(m, staff)))
  {
    var q := CategoryQueryset(m, staff);
    forall id | id in CategorySlugs(q)
      ensures id in CategorySlugs(m) && CategorySlugs(q)[id] == CategorySlugs(m)[id]
    {
    }
    UniqueInPart(CategorySlugs(m), CategorySlugs(q));
  }

  lemma UniqueInBrandQueryset(b: BrandTable, staff: bool)
    requires Unique(BrandSlugs(b))
    ensures Unique(BrandSlugs(BrandQueryset(b, staff)))
  {
    var q := BrandQueryset(b, staff);
    forall id | id in BrandSlugs(q)
      ensures id in BrandSlugs(b) && BrandSlugs(q)[id] == BrandSlugs(b)[id]
    {
    }
    UniqueInPart(BrandSlugs(b), BrandSlugs(q));
  }

  /** The category a request addresses by slug, as get_object() finds it in
      the queryset: `None` is the 404. */
  function LookupCategory(m: Forest, slug: string, staff: bool): (r: Option<Id>)
    requires Unique(CategorySlugs(m))
    ensures r.Some? <==> exists id :: id in m && m[id].slug == slug && (staff || m[id].isActive)
    ensures r.Some? ==> r.value in m && m[r.value].slug == slug && (staff || m[r.value].isActive)
  {
    UniqueInQueryset(m, staff);
    var q := CategoryQueryset(m, staff);
    var r := FindBySlug(CategorySlugs(q), slug);
    assert r.None? ==> forall id :: id in q ==> q[id].slug != slug by {
      if r.None? {
        forall id | id in q
          ensures q[id].slug != slug
        {
          assert CategorySlugs(q)[id] == q[id].slug;
        }
      }
    }
    r
  }

  /** The brand a request addresses by slug: `None` is the 404. */
  function LookupBrand(b: BrandTable, slug: string, staff: bool): (r: Option<Id>)
    requires Unique(BrandSlugs(b))
    ensures r.Some? <==> exists id :: id in b && b[id].slug == slug && (staff || b[id].isActive)
    ensures r.Some? ==> r.value in b && b[r.value].slug == slug && (staff || b[r.value].isActive)
  {
    UniqueInBrandQueryset(b, staff);
    var q := BrandQueryset(b, staff);
    var r := FindBySlug(BrandSlugs(q), slug);
    assert r.None? ==> forall id :: id in q ==> q[id].slug != slug by {
      if r.None? {
        forall id | id in q
          ensures q[id].slug != slug
        {
          assert BrandSlugs(q)[id] == q[id].slug;
        }
      }
    }
    r
  }

  /** `retrieve` on CategoryViewSet: the serialised category, or None (404). */
  function RetrieveCategory(m: Forest, slug: string, staff: bool): (r: Option<CategoryOut>)
    requires Valid(m) && Unique(CategorySlugs(m))
    ensures r.Some? <==> exists id :: id in m && m[id].slug == slug && (staff || m[id].isActive)
    ensures r.Some? ==> r.value.id in m && m[r.value.id].slug == slug
    ensures r.Some? && !staff ==> m[r.value.id].isActive
    ensures r.Some? ==> r.value == SerializeCategory(m, r.value.id)
  {
    match LookupCategory(m, slug, staff)
    case None => None
    case Some(id) => Some(SerializeCategory(m, id))
  }

  /** `retrieve` on BrandViewSet: the serialised brand, or None (404). */
  function RetrieveBrand(b: BrandTable, slug: string, staff: bool): (r: Option<BrandOut>)
    requires Unique(BrandSlugs(b))
    ensures r.Some? <==> exists id :: id in b && b[id].slug == slug && (staff || b[id].isActive)
    ensures r.Some? ==> r.value.id in b && r.value.slug == slug
    ensures r.Some? && !staff ==> b[r.value.id].isActive
    ensures r.Some? ==> r.value == SerializeBrand(r.value.id, b[r.value.id])
  {
    match LookupBrand(b, slug, staff)
    case None => None
    case Some(id) => Some(SerializeBrand(id, b[id]))
  }

  /** The given categories serialised one by one, in order. */
  function SerializeAll(m: Forest, ids: seq<Id>): (r: seq<CategoryOut>)
    requires Valid(m) && forall i :: 0 <= i < |ids| ==> ids[i] in m
    ensures |r| == |ids| && Ids(r) == ids
    ensures forall i :: 0 <= i < |r| ==> r[i] == SerializeCategory(m, ids[i])
  {
    seq(|ids|, i requires 0 <= i < |ids| => SerializeCategory(m, ids[i]))
  }

  /** The `tree` action: every parentless category, active or not, ordered by
      sort_order, each with its nested children. */
  function TreeAction(m: Forest): (r: seq<CategoryOut>)
    requires Valid(m)
    ensures OrderedListing(m, RootIds(m, false), Ids(r))
    ensures forall i :: 0 <= i < |r| ==> r[i] == SerializeCategory(m, Ids(r)[i])
  {
    SerializeAll(m, OrderBySortOrder(m, RootIds(m, false)))
  }

  /** The `root` action (and CategoryTreeView.get and
      CategoryRootListView.get, which run the same query): the parentless
      active categories ordered by sort_order, each with its nested
      children. */
  function RootAction(m: Forest): (r: seq<CategoryOut>)
    requires Valid(m)
    ensures OrderedListing(m, RootIds(m, true), Ids(r))
    ensures forall i :: 0 <= i < |r| ==> r[i] == SerializeCategory(m, Ids(r)[i])
  {
    SerializeAll(m, OrderBySortOrder(m, RootIds(m, true)))
  }

  /** The `root` action lists exactly the active categories that the `tree`
      action lists. */
  lemma RootIsActivePartOfTree(m: Forest)
    requires Valid(m)
    ensures forall x :: x in Ids(RootAction(m)) <==> x in Ids(TreeAction(m)) && m[x].isActive
  {
    var t, r := Ids(TreeAction(m)), Ids(RootAction(m));
    forall x
      ensures x in r <==> x in t && m[x].isActive
    {
      if x in r {
        assert x in RootIds(m, true);
      }
      if x in t && m[x].isActive {
        assert x in RootIds(m, false);
      }
    }
  }

  /** The `root` action lists the active entries of the `tree` action in the
      same order. */
  lemma RootFollowsTreeOrder(m: Forest)
    requires Valid(m)
    ensures Ids(RootAction(m)) == ActiveOnly(m, Ids(TreeAction(m)))
  {
    assert RootIds(m, true) == ActiveIn(m, RootIds(m, false));
    ActiveOnlyOfListing(m, RootIds(m, false));
  }

  /** The slug a save stores: the one supplied, or, when it is empty, the
      first free probe of slugify(name) among the slugs already stored. */
  ghost function AssignedSlug(slug: string, base: string, taken: set<string>): (s: string)
    ensures slug != "" ==> s == slug
    ensures slug == "" ==> s !in taken && |base| <= |s| && s[..|base|] == base
    ensures slug == "" ==> (s == base <==> base !in taken)
  {
    if slug != "" then slug else Slugs.Candidate(base, Slugs.FirstFree(base, taken))
  }

  /** The catalog store: both tables, which rows have products, and the
      slugify function the models use. */
  class CatalogStore {
    var categories: Forest
    var brands: BrandTable
    var categoriesWithProducts: set<Id>
    var brandsWithProducts: set<Id>
    const slugify: string -> string

    /** The database invariants: the category forest has no cycle and no
        dangling parent, and every unique column is unique. */
    ghost predicate Valid()
      reads this
    {
      && CategoryTree.Valid(categories)
      && Unique(CategorySlugs(categories))
      && Unique(BrandSlugs(brands))
      && Unique(BrandNames(brands))
    }

    constructor (slugify: string -> string)
      ensures Valid()
      ensures categories == map[] && brands == map[]
      ensures categoriesWithProducts == {} && brandsWithProducts == {}
      ensures this.slugify == slugify
    {
      categories := map[];
      brands := map[];
      categoriesWithProducts := {};
      brandsWithProducts := {};
      this.slugify := slugify;
    }

    /** Category.save with primary key `id` (an update when a row with that
        key exists, an insert otherwise). An empty slug is replaced by the
        first free one of slugify(name), slugify(name)-1, ... among the
        category slugs; created_at and updated_at come from the clock, never
        from `c`. */
    method SaveCategory(id: Id, c: Category, now: int) returns (outcome: CategorySaveOutcome)
      requires Valid()
      modifies this
      ensures Valid()
      ensures brands == old(brands)
      ensures categoriesWithProducts == old(categoriesWithProducts)
      ensures brandsWithProducts == old(brandsWithProducts)
      ensures outcome == ParentMissing <==>
        c.parent.Some? && c.parent.value !in old(categories)
      ensures outcome == ParentInSubtree <==>
        c.parent.Some? && c.parent.value in old(categories)
        && c.parent.value in Descendants(old(categories), id)
      ensures outcome == CategorySlugTaken <==>
        && AcceptableParent(old(categories), id, c.parent)
        && c.slug != ""
        && exists other :: other in old(categories) && other != id && old(categories)[other].slug == c.slug
      ensures outcome.CategorySaved? ==>
        && AcceptableParent(old(categories), id, c.parent)
        && outcome.slug == AssignedSlug(c.slug, slugify(c.name), CategorySlugs(old(categories)).Values)
        && categories == old(categories)[id := c.(
             slug := outcome.slug,
             createdAt := if id in old(categories) then old(categories)[id].createdAt else now,
             updatedAt := now)]
      ensures outcome.CategorySaved? || categories == old(categories)
    {
      if c.parent.Some? && c.parent.value !in categories {
        return ParentMissing;
      }
      if !AcceptableParent(categories, id, c.parent) {
        return ParentInSubtree;
      }
      if c.slug != "" && exists other :: other in categories && other != id && categories[other].slug == c.slug {
        return CategorySlugTaken;
      }
      var slug := c.slug;
      if slug == "" {
        slug := Slugs.UniqueSlug(slugify(c.name), CategorySlugs(categories).Values);
      }
      forall other | other in categories && other != id
        ensures categories[other].slug != slug
      {
        assert CategorySlugs(categories)[other] == categories[other].slug;
      }
      var created := if id in categories then categories[id].createdAt else now;
      var stored := c.(slug := slug, createdAt := created, updatedAt := now);
      AttachKeepsValid(categories, id, stored);
      SlugStaysUnique(categories, id, stored);
      categories := categories[id := stored];
      outcome := CategorySaved(slug);
    }

    /** Brand.save with primary key `id`: as for categories, but the slug is
        probed against brand slugs only, and the brand name is unique too. */
    method SaveBrand(id: Id, b: Brand, now: int) returns (outcome: BrandSaveOutcome)
      requires Valid()
      modifies this
      ensures Valid()
      ensures categories == old(categories)
      ensures categoriesWithProducts == old(categoriesWithProducts)
      ensures brandsWithProducts == old(brandsWithProducts)
      ensures outcome == BrandNameTaken <==>
        exists other :: other in old(brands) && other != id && old(brands)[other].name == b.name
      ensures outcome.BrandSaved? ==>
        && outcome.slug == AssignedSlug(b.slug, slugify(b.name), BrandSlugs(old(brands)).Values)
        && brands == old(brands)[id := b.(
             slug := outcome.slug,
             createdAt := if id in old(brands) then old(brands)[id].createdAt else now,
             updatedAt := now)]
      ensures !outcome.BrandSaved? ==> brands == old(brands)
      ensures outcome == BrandSlugTaken <==>
        && (forall other :: other in old(brands) && other != id ==> old(brands)[other].name != b.name)
        && b.slug != ""
        && exists other :: other in old(brands) && other != id && old(brands)[other].slug == b.slug
    {
      if exists other :: other in brands && other != id && brands[other].name == b.name {
        return BrandNameTaken;
      }
      if b.slug != "" && exists other :: other in brands && other != id && brands[other].slug == b.slug {
        return BrandSlugTaken;
      }
      var slug := b.slug;
      if slug == "" {
        slug := Slugs.UniqueSlug(slugify(b.name), BrandSlugs(brands).Values);
      }
      forall other | other in brands && other != id
        ensures brands[other].slug != slug
      {
        assert BrandSlugs(brands)[other] == brands[other].slug;
      }
      var created := if id in brands then brands[id].createdAt else now;
      var stored := b.(slug := slug, createdAt := created, updatedAt := now);
      BrandColumnsStayUnique(brands, id, stored);
      brands := brands[id := stored];
      outcome := BrandSaved(slug);
    }

    /** CategoryViewSet.destroy: find the category by slug in the requester's
        queryset (404 if absent); refuse with 400 and change nothing if it
        has products; otherwise delete it, cascading to its whole subtree,
        and answer 204. */
    method DestroyCategory(slug: string, staff: bool) returns (response: Response)
      requires Valid()
      modifies this
      ensures Valid()
      ensures brands == old(brands)
      ensures categoriesWithProducts == old(categoriesWithProducts)
      ensures brandsWithProducts == old(brandsWithProducts)
      ensures StatusCode(response) == 204 <==> categories != old(categories)
      ensures
        match LookupCategory(old(categories), slug, staff)
        case None =>
          response == NotFound && categories == old(categories)
        case Some(id) =>
          if id in categoriesWithProducts then
            response == BadRequest(CategoryHasProducts) && categories == old(categories)
          else
            response == NoContent && categories == old(categories) - Descendants(old(categories), id)
    {
      var found := LookupCategory(categories, slug, staff);
      match found
      case None =>
        response := NotFound;
      case Some(id) =>
        if id in categoriesWithProducts {
          response := BadRequest(CategoryHasProducts);
        } else {
          var rest := categories - Descendants(categories, id);
          DeleteSubtreeKeepsValid(categories, id);
          UniqueInPart(CategorySlugs(categories), CategorySlugs(rest));
          categories := rest;
          response := NoContent;
        }
    }

    /** BrandViewSet.destroy: the same guard for brands; a brand has no
        dependants, so only that row goes. */
    method DestroyBrand(slug: string, staff: bool) returns (response: Response)
      requires Valid()
      modifies this
      ensures Valid()
      ensures categories == old(categories)
      ensures categoriesWithProducts == old(categoriesWithProducts)
      ensures brandsWithProducts == old(brandsWithProducts)
      ensures StatusCode(response) == 204 <==> brands != old(brands)
      ensures
        match LookupBrand(old(brands), slug, staff)
        case None =>
          response == NotFound && brands == old(brands)
        case Some(id) =>
          if id in brandsWithProducts then
            response == BadRequest(BrandHasProducts) && brands == old(brands)
          else
            response == NoContent && brands == old(brands) - {id}
    {
      var found := LookupBrand(brands, slug, staff);
      match found
      case None =>
        response := NotFound;
      case Some(id) =>
        if id in brandsWithProducts {
          response := BadRequest(BrandHasProducts);
        } else {
          var rest := brands - {id};
          UniqueInPart(BrandSlugs(brands), BrandSlugs(rest));
          UniqueInPart(BrandNames(brands), BrandNames(rest));
          brands := rest;
          response := NoContent;
        }
    }
  }

  /** Storing a category whose slug no other row has keeps the slug column
      unique. */
  lemma SlugStaysUnique(m: Forest, id: Id, c: Category)
    requires Unique(CategorySlugs(m))
    requires forall other :: other in m && other != id ==> m[other].slug != c.slug
    ensures Unique(CategorySlugs(m[id := c]))
  {
    var s := CategorySlugs(m[id := c]);
    forall a, b | a in s && b in s && s[a] == s[b]
      ensures a == b
    {
      if a != id && b != id {
        assert CategorySlugs(m)[a] == s[a] && CategorySlugs(m)[b] == s[b];
      }
    }
  }

  lemma BrandColumnsStayUnique(t: BrandTable, id: Id, b: Brand)
    requires Unique(BrandSlugs(t)) && Unique(BrandNames(t))
    requires forall other :: other in t && other != id ==> t[other].slug != b.slug
    requires forall other :: other in t && other != id ==> t[other].name != b.name
    ensures Unique(BrandSlugs(t[id := b])) && Unique(BrandNames(t[id := b]))
  {
    var t' := t[id := b];
    var s := BrandSlugs(t');
    var n := BrandNames(t');
    var s0 := BrandSlugs(t);
    var n0 := BrandNames(t);
    forall x, y | x in s && y in s && s[x] == s[y]
      ensures x == y
    {
      if x != id && y != id {
        assert s0[x] == s[x] && s0[y] == s[y];
      }
    }
    forall x, y | x in n && y in n && n[x] == n[y]
      ensures x == y
    {
      if x != id && y != id {
        assert n0[x] == n[x] && n0[y] == n[y];
      }
    }
  }
}
