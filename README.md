# Catalog store: categories and brands

This project models the core of a Django e-commerce catalog and proves
properties about it. The catalog keeps two tables.

- **Categories** form a hierarchy through a nullable `parent`
  self-reference. Deleting a category cascades to its children. The
  `django-mptt` library keeps the table as a tree.
- **Brands** are a flat table whose `name` and `slug` are unique.

A record saved with an empty slug gets one automatically. The save runs
`slugify(name)` and then probes `base`, `base-1`, `base-2`, ... until it
finds a slug that no stored row of that table uses. The REST API is built
on Django REST framework:

- Records are addressed by slug.
- Non-staff users see only active records.
- Deleting a record that has products is refused with 400.
- The `tree` and `root` actions list root categories by `sort_order`,
  each nested with its children.
- The serializers add `image_url` / `logo_url` and the category's
  `full_path` ("Electronics > Phones > Android").

Files:

- `models.dfy` (module `Models`): the Category and Brand records.
- `sets.dfy` (module `Sets`): the subset-size lemma the pigeonhole
  arguments use.
- `slugs.dfy` (module `Slugs`): the unique-slug probing loop of
  `Category.save` / `Brand.save`, proved to return the first free probe.
- `tree.dfy` (module `CategoryTree`): the category table as a
  parent-pointer forest. It covers ancestors, `get_full_path`, the set a
  cascading delete removes, the save-time check that keeps the forest
  acyclic, and ordering by `sort_order`.
- `serializers.dfy` (module `Serializers`): `CategorySerializer`, with its
  recursive `children`, and `BrandSerializer`.
- `views.dfy` (module `Views`): the querysets, slug lookup, `retrieve`,
  `tree`/`root`, and the class `CatalogStore`. The class holds both tables
  and implements save and destroy as methods that update it in place.

The store's invariant, `CatalogStore.Valid`, states two things. Every
category reaches a root by following parent links, so there is no cycle
and no dangling parent. And every `unique=True` column is unique. Every
method preserves it.

Behaviour of the code that the model follows:

- `full_path` is computed on each read from the ancestors. It is not a
  cached column.
- The `tree` action queries `Category.objects` directly, so it lists
  inactive roots even to non-staff users.
- `get_children` does not filter on `is_active`, so nested children
  appear whether active or not. Neither listing goes through
  `get_queryset`.
- The probing loop checks candidates against every row of the table,
  including the row being saved. So re-saving a category with a cleared
  slug moves it to `base-1` when its old slug was `base`.

## Model

| member | source | states |
|---|---|---|
| Slugs.Decimal | products/models.py:67 | the suffix `num` is rendered as one or more decimal digits, with a leading `0` only for zero |
| Slugs.DecimalRoundTrip | products/models.py:67 | the decimal suffix rendered for `num` reads back as `num` |
| Slugs.Candidate | products/models.py:64-67 | the slug probed at each step starts with the base and equals the base exactly at step 0 (`unique_slug = base_slug`, then `f"{base_slug}-{num}"`) |
| Slugs.CandidateInjective | products/models.py:64-67 | two probes of the same base are equal only at the same step (`base` and every `base-n` are distinct) |
| Slugs.ProbedCount | products/models.py:64-68 | the first n probes are n distinct slugs |
| Slugs.ProbesBoundedByTaken | products/models.py:66-68 | if the first n probes are all taken, the table holds at least n slugs, so the loop stops |
| Slugs.FirstFree | products/models.py:62-69 | the step the save settles on: its probe is free, every earlier probe is taken, it is 0 exactly when the base is free, and it is at most the number of stored slugs |
| Slugs.UniqueSlug | products/models.py:61-70 | the probing loop (the same loop as Brand.save, lines 125-134) returns exactly the first free probe |
| Slugs.AssignedSlugIsFreshAndMinimal | products/models.py:62-69 | the assigned slug is unused; it is the base when the base is free, otherwise `base-n` with every `base-k`, 1 <= k < n, taken |
| CategoryTree.Chain | products/models.py:18-25 | the walk up parent links stays inside the table, starts at the category itself and takes at most `fuel` steps |
| CategoryTree.LineageStep | products/models.py:18-25 | a root's lineage is itself; otherwise the parent is stored and the lineage is the category followed by its parent's lineage |
| CategoryTree.LineageIsRootPath | products/models.py:18-25 | in a valid table every lineage follows parent links, ends at a root and is no longer than the table |
| CategoryTree.LineageDistinct | products/models.py:18-25 | no category appears twice in a lineage (no cycles) |
| CategoryTree.Descendants | products/models.py:18-25 | the set the CASCADE removes when x is deleted: x itself and only categories whose parent chain passes through x |
| CategoryTree.DescendantsStep | products/models.py:18-25 | a category is in x's subtree exactly when it is x or is in the subtree of one of x's children |
| CategoryTree.ChildIds | products/models.py:23 | the `children` related name: exactly the stored categories whose parent is x |
| CategoryTree.DeleteSubtreeKeepsValid | products/models.py:18-25 | removing a category together with everything the CASCADE reaches leaves a table with no dangling parent and no cycle |
| CategoryTree.AcceptableParent | products/models.py:70 | the parents MPTT accepts when `super().save()` moves a category: none, or a stored category of which x is not an ancestor; a category is never accepted as its own parent |
| CategoryTree.AttachKeepsValid | products/models.py:70 | storing a category that has no parent (null), or whose parent is stored and outside its own subtree, keeps the table acyclic and free of dangling parents |
| CategoryTree.Ancestors | products/models.py:80 | `get_ancestors(include_self=True)`: as many stored categories as the parent chain, ending with the category itself |
| CategoryTree.AncestorsShape | products/models.py:80 | `get_ancestors(include_self=True)` starts at a root, ends at the category, and each entry is the parent of the next |
| CategoryTree.FullPath | products/models.py:79-81 | `get_full_path` ends with the category's own name |
| CategoryTree.Names | products/models.py:81 | `[cat.name for cat in ancestors]`: one name per category, the i-th being the i-th category's name |
| CategoryTree.Join | products/models.py:81 | `str.join` of no parts is the empty string |
| CategoryTree.JoinStartsWithFirst | products/models.py:81 | `" > ".join(...)` of one or more names starts with the first name |
| CategoryTree.JoinEndsWithLast | products/models.py:81 | `" > ".join(...)` of one or more names ends with the last name |
| CategoryTree.FullPathStep | products/models.py:79-81 | a root's full path is its name; any other category's is its parent's full path, then " > ", then its name |
| CategoryTree.First | products/views.py:44 | every non-empty set of categories has one that precedes all others by sort_order (ties by id) |
| CategoryTree.PrependFirst | products/views.py:44 | the first category put before an ordered listing of the rest gives an ordered listing of the whole set |
| CategoryTree.OrderBySortOrder | products/views.py:44 | `order_by('sort_order')` lists every category of the set exactly once, in non-decreasing sort_order |
| CategoryTree.RootIds | products/views.py:44-51 | `filter(parent__isnull=True)` (line 44) and with `is_active=True` (lines 51, 84, 90): exactly the stored categories with no parent, and when asked, only the active ones |
| CategoryTree.ActiveOnlyOfListing | products/views.py:44-51 | keeping the active entries of a listing by sort_order gives the listing by sort_order of the active categories |
| Serializers.ImageUrl | products/serializers.py:25-28 | `image_url` is null exactly when there is no image, else the image's URL |
| Serializers.LogoUrl | products/serializers.py:44-47 | `logo_url` is null exactly when there is no logo, else the logo's URL |
| Serializers.Node | products/serializers.py:13-17 | the `Meta.fields` of one category: its id, name, slug, parent, is_active, sort_order and both timestamps copied from the row, `image_url` null exactly when there is no image, and the given full_path and children |
| Serializers.SerializeChildren | products/serializers.py:20-23 | `children` holds one serialised entry per given child, in the given order |
| Serializers.SerializedChildAt | products/serializers.py:22 | each entry of `children` is that child serialised on its own, with its own nested children |
| Serializers.ChildrenSerialized | products/serializers.py:20-23 | each nested child of a serialised category is one of its direct children, serialised in full |
| Serializers.ChildIsDeeper | products/serializers.py:20-23 | a child's lineage is strictly longer than its parent's and bounded by the table, so the recursion ends |
| Serializers.SerializeCategory | products/serializers.py:5-28 | the output carries the category's id, sort_order and full_path; `children` lists exactly its direct children, each once, by sort_order, and is `[]` exactly when it has none |
| Serializers.SerializeBrand | products/serializers.py:31-47 | the output carries the brand's id and slug, and `logo_url` is null exactly when there is no logo |
| Serializers.NotOwnDescendant | products/models.py:18-25 | a category never lies in the subtree of one of its own children |
| Serializers.SiblingSubtreesDisjoint | products/models.py:18-25 | the subtrees of two different children of a category do not overlap |
| Serializers.SubtreeMember | products/serializers.py:20-23 | a category appears in the nested output for x exactly when it is in x's subtree |
| Serializers.SubtreeMembers | products/serializers.py:20-23 | the nested output for x contains exactly x's subtree |
| Serializers.SubtreeDistinct | products/serializers.py:20-23 | no category appears twice in the nested output for x |
| Views.FindBySlug | products/views.py:15 | lookup by a unique slug finds the one row with that slug, or nothing when no row has it |
| Views.CategoryQueryset | products/views.py:18-22 | staff get every category; others get exactly the active ones, unchanged |
| Views.BrandQueryset | products/views.py:63-66 | staff get every brand; others get exactly the active ones, unchanged |
| Views.UniqueInPart | products/models.py:16 | a unique column stays unique in any part of the table |
| Views.UniqueInQueryset | products/views.py:18-22 | category slugs stay unique within any queryset |
| Views.UniqueInBrandQueryset | products/views.py:63-66 | brand slugs stay unique within any queryset |
| Views.LookupCategory | products/views.py:15-22 | `get_object` finds a category exactly when one with that slug is visible to the requester; the one found has that slug and is active unless the requester is staff |
| Views.LookupBrand | products/views.py:60-66 | as LookupCategory, for brands |
| Views.RetrieveCategory | products/views.py:12-22 | `retrieve` answers exactly when a visible category has the slug; a non-staff requester never receives an inactive category; the answer is that category's full CategorySerializer output |
| Views.RetrieveBrand | products/views.py:57-66 | `retrieve` answers exactly when a visible brand has the slug; a non-staff requester never receives an inactive brand; the answer is that brand's BrandSerializer output |
| Views.SerializeAll | products/views.py:45 | `many=True` serialises each given category in full, one entry per category, in the given order |
| Views.TreeAction | products/views.py:42-46 | `tree` lists every parentless category, active or not, once each, by sort_order, each fully serialised |
| Views.RootAction | products/views.py:49-92 | `root`, CategoryTreeView.get and CategoryRootListView.get (lines 49-53 and 82-92, the same query) list every parentless active category, once each, by sort_order, each fully serialised |
| Views.RootIsActivePartOfTree | products/views.py:42-53 | `root` lists exactly the active categories that `tree` lists |
| Views.RootFollowsTreeOrder | products/views.py:42-53 | the ids `root` lists are the active ids `tree` lists, in the same order |
| Views.AssignedSlug | products/models.py:62-69 | the slug a save stores: the supplied one when it is not empty; otherwise an unused slug that starts with the base, and is the base exactly when the base is unused |
| Views.SlugStaysUnique | products/models.py:16 | storing a category with a slug no other row has keeps category slugs unique |
| Views.BrandColumnsStayUnique | products/models.py:88-89 | storing a brand whose name and slug no other row has keeps both columns unique |
| Views.CatalogStore.SaveCategory | products/models.py:61-70 | refuses with no change a missing parent, a parent inside the category's own subtree, or a supplied slug another row has; otherwise stores the record with the given or first free slug, keeps the old created_at on update (now on insert), sets updated_at to now, and keeps the store valid |
| Views.CatalogStore.SaveBrand | products/models.py:125-134 | refuses with no change exactly when another brand has the name, or has the supplied slug; otherwise stores the brand with the given or first free slug and clock-set timestamps, keeping names and slugs unique |
| Views.CatalogStore.DestroyCategory | products/views.py:30-38 | 404 and no change when no visible category has the slug; 400 with the exact message and no change when it has products; otherwise 204 and the category's whole subtree removed, keeping the store valid; the status is 204 exactly when the table changed |
| Views.CatalogStore.DestroyBrand | products/views.py:68-76 | 404 when no visible brand has the slug; 400 with the exact message and no change when it has products; otherwise 204 and just that brand removed; the status is 204 exactly when the table changed |

## Left out

- `product_count` and the Product table: which records have products is
  a field of the store. The model does not say what happens to the
  products of the descendants that a cascading delete removes, because
  the Product model is not part of this model.
- `slugify`: an arbitrary function held by the store. Its Unicode
  handling is not modelled.
- Cloudinary: an image or logo is a public id plus the URL that `.url`
  yields. URL generation and transformations are not modelled.
- MPTT's left/right/level numbering and `order_insertion_by`: the tree
  is a parent-pointer map. Ancestors, subtree and ordering are derived
  from parent links.
- Ordering ties: where sort_order values are equal, the model orders by
  primary key. The database's tie order is unspecified. The listing
  properties mention only non-decreasing sort_order; only
  Views.RootFollowsTreeOrder relies on the tie order, since it assumes
  both queries break ties the same way.
- The order of the plain `list` endpoints is not modelled: the model
  gives the list queryset as a map without an order.
- Timestamps: `now` is a parameter. The model does not read a clock.
- Views.CatalogStore.SaveCategory and Views.CatalogStore.SaveBrand: the
  model returns one refusal when the request has several faults, where
  DRF reports every field error at once. SaveCategory checks the parent
  before the slug; SaveBrand checks the name before the slug. In
  SaveCategory a parent inside the category's own subtree is a refusal in the
  model, where MPTT raises InvalidMove, an unhandled error.
- Views.CatalogStore.SaveCategory and Views.CatalogStore.SaveBrand take
  the whole record. A partial update that merges fields is not modelled.
- Permissions: the permission class allows any authenticated user to
  write. The model does not check authentication at all, and `staff`
  only selects the queryset.
- Concurrency: two saves probing the same slug at once, and the database
  unique constraint that would then fail one of them.
- The `accounts` app, URL routing, admin and template views.
