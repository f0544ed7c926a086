/** The category hierarchy as a parent-pointer forest: each stored category
    names an optional parent, and following parents from any category ends
    at a root. Ancestors, the full path, the cascade of a delete and the
    sort_order listings are all defined on this forest. */
module CategoryTree {
  import opened Models
  import opened Sets

  /** The Category table keyed by primary key. */
  type Forest = map<Id, Category>

  /** The ids met by walking parent links up from `id` (id first) for at most
      `fuel` categories; the walk stops at a root or at a parent that is not
      stored. */
  function Chain(m: Forest, id: Id, fuel: nat): (c: seq<Id>)
    ensures |c| <= fuel
    ensures forall i :: 0 <= i < |c| ==> c[i] in m
    ensures fuel > 0 && id in m ==> |c| >= 1 && c[0] == id
    decreases fuel
  {
    if fuel == 0 || id !in m then []
    else
      match m[id].parent
      case None => [id]
      case Some(p) => [id] + Chain(m, p, fuel - 1)
  }

  /** Walking up from `id` reaches a root within `fuel` categories. */
  predicate Rooted(m: Forest, id: Id, fuel: nat)
    decreases fuel
  {
    && fuel > 0
    && id in m
    && match m[id].parent
       case None => true
       case Some(p) => Rooted(m, p, fuel - 1)
  }

  /** The tree invariant: every parent is stored and there is no cycle, so
      every category reaches a root (within as many steps as there are
      categories). */
  ghost predicate Valid(m: Forest)
  {
    forall id {:trigger Rooted(m, id, |m|)} :: id in m ==> Rooted(m, id, |m|)
  }

  /** The category, its parent, its grandparent, ... up to the root. */
  function Lineage(m: Forest, id: Id): seq<Id>
  {
    Chain(m, id, |m|)
  }

  /** `s` runs along parent links in `m` and ends at a root. */
  ghost predicate IsRootPath(m: Forest, s: seq<Id>)
  {
    && |s| >= 1
    && (forall i :: 0 <= i < |s| ==> s[i] in m)
    && (forall i :: 0 <= i < |s| - 1 ==> m[s[i]].parent == Some(s[i + 1]))
    && m[s[|s| - 1]].parent == None
  }

  ghost predicate Distinct(s: seq<Id>)
  {
    forall i, j :: 0 <= i < j < |s| ==> s[i] != s[j]
  }

  /** More fuel changes nothing once the walk has reached a root. */
  lemma {:induction false} ChainFuel(m: Forest, id: Id, f: nat, g: nat)
    requires Rooted(m, id, f) && f <= g
    ensures Rooted(m, id, g) && Chain(m, id, g) == Chain(m, id, f)
    decreases f
  {
    match m[id].parent
    case None =>
    case Some(p) => ChainFuel(m, p, f - 1, g - 1);
  }

  /** A walk that reaches a root is a root path starting at `id`. */
  lemma {:induction false} RootedChainIsRootPath(m: Forest, id: Id, f: nat)
    requires Rooted(m, id, f)
    ensures IsRootPath(m, Chain(m, id, f))
    decreases f
  {
    match m[id].parent
    case None =>
    case Some(p) =>
      RootedChainIsRootPath(m, p, f - 1);
      var rest := Chain(m, p, f - 1);
      assert Chain(m, id, f) == [id] + rest;
  }

  /** Conversely, a root path of length at most `f` is the walk from its
      first element. */
  lemma {:induction false} RootPathIsChain(m: Forest, s: seq<Id>, f: nat)
    requires IsRootPath(m, s) && |s| <= f
    ensures Rooted(m, s[0], f) && Chain(m, s[0], f) == s
    decreases |s|
  {
    if |s| > 1 {
      var t := s[1..];
      assert IsRootPath(m, t) by {
        forall i | 0 <= i < |t| - 1
          ensures m[t[i]].parent == Some(t[i + 1])
        {
          assert t[i] == s[i + 1] && t[i + 1] == s[i + 2];
        }
      }
      RootPathIsChain(m, t, f - 1);
    }
  }

  /** A category's lineage is itself followed by its parent's lineage. */
  lemma LineageStep(m: Forest, c: Id)
    requires Valid(m) && c in m
    ensures m[c].parent.None? ==> Lineage(m, c) == [c]
    ensures m[c].parent.Some? ==>
      && m[c].parent.value in m
      && Lineage(m, c) == [c] + Lineage(m, m[c].parent.value)
  {
    assert Rooted(m, c, |m|);
    match m[c].parent
    case None =>
    case Some(p) =>
      ChainFuel(m, p, |m| - 1, |m|);
  }

  /** Every lineage is a root path of at most |m| categories, starting at the
      category itself. */
  lemma LineageIsRootPath(m: Forest, y: Id)
    requires Valid(m) && y in m
    ensures IsRootPath(m, Lineage(m, y)) && Lineage(m, y)[0] == y
    ensures |Lineage(m, y)| <= |m|
  {
    assert Rooted(m, y, |m|);
    RootedChainIsRootPath(m, y, |m|);
  }

  /** The lineage of any member of a lineage is the rest of that lineage. */
  lemma {:induction false} LineageSuffix(m: Forest, y: Id, j: nat)
    requires Valid(m) && y in m && j < |Lineage(m, y)|
    ensures Lineage(m, y)[j] in m
    ensures Lineage(m, Lineage(m, y)[j]) == Lineage(m, y)[j..]
    decreases j
  {
    LineageStep(m, y);
    if j > 0 {
      var p := m[y].parent.value;
      assert Lineage(m, y)[j] == Lineage(m, p)[j - 1];
      LineageSuffix(m, p, j - 1);
    }
  }

  /** No category occurs twice in a lineage: the forest has no cycle. */
  lemma LineageDistinct(m: Forest, y: Id)
    requires Valid(m) && y in m
    ensures Distinct(Lineage(m, y))
  {
    var l := Lineage(m, y);
    forall i, j | 0 <= i < j < |l|
      ensures l[i] != l[j]
    {
      LineageSuffix(m, y, i);
      LineageSuffix(m, y, j);
    }
  }

  /** The elements of a sequence as a set. */
  function Elements(s: seq<Id>): set<Id>
  {
    set x | x in s
  }

  /** A sequence without repetition has as many elements as its length. */
  lemma {:induction false} DistinctElements(s: seq<Id>)
    requires Distinct(s)
    ensures |Elements(s)| == |s|
    decreases |s|
  {
    if |s| > 0 {
      var t, z := s[..|s| - 1], s[|s| - 1];
      assert s == t + [z];
      assert Distinct(t) by {
        forall i, j | 0 <= i < j < |t|
          ensures t[i] != t[j]
        {
          assert t[i] == s[i] && t[j] == s[j];
        }
      }
      DistinctElements(t);
      assert z !in Elements(t);
      assert Elements(s) == Elements(t) + {z};
    }
  }

  /** A root path without repetition in a forest fits within the forest, so
      its first category is Rooted in the sense of Valid. */
  lemma RootedByDistinctPath(m: Forest, s: seq<Id>)
    requires IsRootPath(m, s) && Distinct(s)
    ensures Rooted(m, s[0], |m|) && Lineage(m, s[0]) == s
  {
    DistinctElements(s);
    SubsetSize(Elements(s), m.Keys);
    assert |m.Keys| == |m|;
    RootPathIsChain(m, s, |m|);
  }

  /** The categories the delete of `x` cascades to: `x` and every category
      whose lineage passes through `x`. */
  function Descendants(m: Forest, x: Id): (d: set<Id>)
    ensures d <= m.Keys
    ensures x in m ==> x in d
    ensures forall y :: y in d ==> x in Lineage(m, y)
  {
    set y | y in m && x in Lineage(m, y)
  }

  /** Removing a category together with all of its descendants leaves a
      valid forest: no remaining category had a removed parent. */
  lemma DeleteSubtreeKeepsValid(m: Forest, x: Id)
    requires Valid(m)
    ensures Valid(m - Descendants(m, x))
  {
    var d := Descendants(m, x);
    var r := m - d;
    forall y | y in r
      ensures Rooted(r, y, |r|)
    {
      var l := Lineage(m, y);
      LineageIsRootPath(m, y);
      LineageDistinct(m, y);
      forall i | 0 <= i < |l|
        ensures l[i] in r
      {
        LineageSuffix(m, y, i);
      }
      assert IsRootPath(r, l);
      RootedByDistinctPath(r, l);
    }
  }

  /** The parents MPTT accepts for category `x` when it is saved: none, or a
      stored category outside `x`'s own subtree. */
  predicate AcceptableParent(m: Forest, x: Id, parent: Option<Id>): (ok: bool)
    ensures ok <==> parent.None? || (parent.value in m && x !in Lineage(m, parent.value))
    ensures ok && x in m ==> parent != Some(x)
  {
    match parent
    case None => true
    case Some(p) => p in m && p !in Descendants(m, x)
  }

  /** The root path that category `x` has once it is saved with an
      acceptable parent: `x` itself, then the parent's lineage. */
  lemma NewRootPath(m: Forest, x: Id, c: Category) returns (px: seq<Id>)
    requires Valid(m) && AcceptableParent(m, x, c.parent)
    ensures IsRootPath(m[x := c], px) && Distinct(px) && px[0] == x
    ensures forall i :: 1 <= i < |px| ==> px[i] in m && x !in Lineage(m, px[i])
  {
    match c.parent
    case None =>
      px := [x];
    case Some(p) =>
      var lp := Lineage(m, p);
      LineageIsRootPath(m, p);
      LineageDistinct(m, p);
      px := [x] + lp;
      forall i | 0 <= i < |lp|
        ensures lp[i] != x && x !in Lineage(m, lp[i])
      {
        LineageSuffix(m, p, i);
      }
      forall i | 1 <= i < |px|
        ensures px[i] in m && x !in Lineage(m, px[i])
      {
        assert px[i] == lp[i - 1];
      }
      forall i | 0 <= i < |px| - 1
        ensures m[x := c][px[i]].parent == Some(px[i + 1])
      {
        if i > 0 {
          assert px[i] == lp[i - 1] && px[i + 1] == lp[i];
        }
      }
  }

  /** Inserting or overwriting category `x` with an acceptable parent keeps
      the forest valid. */
  lemma AttachKeepsValid(m: Forest, x: Id, c: Category)
    requires Valid(m) && AcceptableParent(m, x, c.parent)
    ensures Valid(m[x := c])
  {
    var r := m[x := c];
    var px := NewRootPath(m, x, c);
    forall y | y in r
      ensures Rooted(r, y, |r|)
    {
      if y == x {
        RootedByDistinctPath(r, px);
      } else {
        var l := Lineage(m, y);
        LineageIsRootPath(m, y);
        LineageDistinct(m, y);
        if x in l {
          var k :| 0 <= k < |l| && l[k] == x;
          AttachedPath(m, x, c, y, k, px);
          RootedByDistinctPath(r, l[..k] + px);
        } else {
          assert IsRootPath(r, l);
          RootedByDistinctPath(r, l);
        }
      }
    }
  }

  /** Helper of AttachKeepsValid: a category below `x` reaches the root
      through `x`'s new root path. */
  lemma AttachedPath(m: Forest, x: Id, c: Category, y: Id, k: nat, px: seq<Id>)
    requires Valid(m) && y in m && y != x
    requires k < |Lineage(m, y)| && Lineage(m, y)[k] == x
    requires IsRootPath(m[x := c], px) && Distinct(px) && px[0] == x
    requires forall i :: 1 <= i < |px| ==> px[i] in m && x !in Lineage(m, px[i])
    ensures IsRootPath(m[x := c], Lineage(m, y)[..k] + px)
    ensures Distinct(Lineage(m, y)[..k] + px)
  {
    var r := m[x := c];
    var l := Lineage(m, y);
    var s := l[..k] + px;
    LineageIsRootPath(m, y);
    LineageDistinct(m, y);
    assert k > 0;
    forall i | 0 <= i < k
      ensures x in Lineage(m, l[i]) && l[i] != x
    {
      LineageSuffix(m, y, i);
      assert l[i..][k - i] == x;
    }
    forall i | 0 <= i < |s| - 1
      ensures r[s[i]].parent == Some(s[i + 1])
    {
      if i < k - 1 {
        assert s[i] == l[i] && s[i + 1] == l[i + 1];
      } else if i == k - 1 {
        assert s[i] == l[k - 1] && s[i + 1] == x == l[k];
      } else {
        assert s[i] == px[i - k] && s[i + 1] == px[i - k + 1];
      }
    }
    forall i, j | 0 <= i < j < |s|
      ensures s[i] != s[j]
    {
      if j >= k && i < k {
        assert s[i] == l[i] && s[j] == px[j - k];
        if j - k >= 1 {
          assert x !in Lineage(m, px[j - k]);
          assert x in Lineage(m, l[i]);
        }
      }
    }
  }

  /** The ancestors of a category from the root down to the category itself
      (MPTT's get_ancestors(include_self=True)). */
  function Ancestors(m: Forest, id: Id): (a: seq<Id>)
    ensures |a| == |Lineage(m, id)|
    ensures forall i :: 0 <= i < |a| ==> a[i] in m
    ensures id in m ==> |a| >= 1 && a[|a| - 1] == id
  {
    Reverse(Lineage(m, id))
  }

  function Reverse(s: seq<Id>): (r: seq<Id>)
    ensures |r| == |s|
    ensures forall i :: 0 <= i < |s| ==> r[i] == s[|s| - 1 - i]
  {
    if s == [] then [] else Reverse(s[1..]) + [s[0]]
  }

  /** Python's str.join. */
  function Join(parts: seq<string>, sep: string): (j: string)
    ensures |parts| == 0 ==> j == ""
  {
    if |parts| == 0 then ""
    else if |parts| == 1 then parts[0]
    else Join(parts[..|parts| - 1], sep) + sep + parts[|parts| - 1]
  }

  /** The names of the given categories, in order. */
  function Names(m: Forest, ids: seq<Id>): (names: seq<string>)
    requires forall i :: 0 <= i < |ids| ==> ids[i] in m
    ensures |names| == |ids|
    ensures forall i :: 0 <= i < |ids| ==> names[i] == m[ids[i]].name
  {
    seq(|ids|, i requires 0 <= i < |ids| => m[ids[i]].name)
  }

  /** Category.get_full_path: the names from the root down to the category,
      joined with " > ". */
  function FullPath(m: Forest, id: Id): (p: string)
    ensures id in m ==> |m[id].name| <= |p| && p[|p| - |m[id].name|..] == m[id].name
  {
    var names := Names(m, Ancestors(m, id));
    if id in m then
      JoinEndsWithLast(names, " > ");
      Join(names, " > ")
    else
      Join(names, " > ")
  }

  /** A join of one or more parts ends with the last part. */
  lemma JoinEndsWithLast(parts: seq<string>, sep: string)
    requires |parts| >= 1
    ensures var j := Join(parts, sep);
      |parts[|parts| - 1]| <= |j| && j[|j| - |parts[|parts| - 1]|..] == parts[|parts| - 1]
  {
    if |parts| > 1 {
      var front := Join(parts[..|parts| - 1], sep) + sep;
      assert Join(parts, sep) == front + parts[|parts| - 1];
    }
  }

  /** A join of one or more parts starts with the first part. */
  lemma {:induction false} JoinStartsWithFirst(parts: seq<string>, sep: string)
    requires |parts| >= 1
    ensures var j := Join(parts, sep); |parts[0]| <= |j| && j[..|parts[0]|] == parts[0]
  {
    if |parts| > 1 {
      var init := parts[..|parts| - 1];
      JoinStartsWithFirst(init, sep);
      assert init[0] == parts[0];
      var front := Join(init, sep);
      assert Join(parts, sep) == front + sep + parts[|parts| - 1];
      assert (front + sep + parts[|parts| - 1])[..|parts[0]|] == front[..|parts[0]|];
    }
  }

  /** The ancestors run from a root down to the category along parent links. */
  lemma AncestorsShape(m: Forest, id: Id)
    requires Valid(m) && id in m
    ensures |Ancestors(m, id)| >= 1
    ensures m[Ancestors(m, id)[0]].parent == None
    ensures Ancestors(m, id)[|Ancestors(m, id)| - 1] == id
    ensures forall i :: 1 <= i < |Ancestors(m, id)| ==>
      m[Ancestors(m, id)[i]].parent == Some(Ancestors(m, id)[i - 1])
  {
    var l := Lineage(m, id);
    var a := Ancestors(m, id);
    LineageIsRootPath(m, id);
    forall i | 1 <= i < |a|
      ensures m[a[i]].parent == Some(a[i - 1])
    {
      assert a[i] == l[|l| - 1 - i] && a[i - 1] == l[|l| - 1 - i + 1];
    }
  }

  /** get_full_path of a root is its own name; of any other category it is
      the parent's full path, " > ", and the category's own name. */
  lemma FullPathStep(m: Forest, id: Id)
    requires Valid(m) && id in m
    ensures m[id].parent.None? ==> FullPath(m, id) == m[id].name
    ensures m[id].parent.Some? ==>
      FullPath(m, id) == FullPath(m, m[id].parent.value) + " > " + m[id].name
  {
    LineageStep(m, id);
    match m[id].parent
    case None =>
      assert Ancestors(m, id) == [id];
    case Some(p) =>
      var lp := Lineage(m, p);
      LineageIsRootPath(m, p);
      assert Reverse([id] + lp) == Reverse(lp) + [id] by {
        assert ([id] + lp)[1..] == lp;
      }
      var np := Names(m, Ancestors(m, p));
      var n := Names(m, Ancestors(m, id));
      assert n == np + [m[id].name];
      assert n[..|n| - 1] == np;
  }

  /** Order by sort_order; equal sort_orders are ordered by id (the source
      leaves their order unspecified). */
  predicate Precedes(m: Forest, a: Id, b: Id)
    requires a in m && b in m
  {
    m[a].sortOrder < m[b].sortOrder || (m[a].sortOrder == m[b].sortOrder && a <= b)
  }

  /** Every non-empty set of categories has a first one in that order. */
  lemma {:induction false} First(m: Forest, s: set<Id>) returns (c: Id)
    requires s != {} && s <= m.Keys
    ensures c in s && forall d :: d in s ==> Precedes(m, c, d)
    decreases s
  {
    var x :| x in s;
    if s == {x} {
      c := x;
    } else {
      c := First(m, s - {x});
      if !Precedes(m, c, x) {
        forall d | d in s
          ensures Precedes(m, x, d)
        {
          if d != x {
            assert Precedes(m, c, d);
          }
        }
        c := x;
      }
    }
  }

  /** `ids` lists the categories of `s`, each exactly once, in
      non-decreasing sort_order. */
  ghost predicate OrderedListing(m: Forest, s: set<Id>, ids: seq<Id>)
    requires s <= m.Keys
  {
    && |ids| == |s|
    && (forall i :: 0 <= i < |ids| ==> ids[i] in s)
    && (forall x :: x in s ==> x in ids)
    && Distinct(ids)
    && forall i, j :: 0 <= i < j < |ids| ==> m[ids[i]].sortOrder <= m[ids[j]].sortOrder
  }

  /** Putting the first category of `s` before an ordered listing of the
      others gives an ordered listing of `s`. */
  lemma PrependFirst(m: Forest, s: set<Id>, c: Id, rest: seq<Id>)
    requires s <= m.Keys && c in s && forall d :: d in s ==> Precedes(m, c, d)
    requires OrderedListing(m, s - {c}, rest)
    ensures OrderedListing(m, s, [c] + rest)
  {
    var r := [c] + rest;
    forall i, j | 0 <= i < j < |r|
      ensures r[i] != r[j] && r[i] in m && r[j] in m && m[r[i]].sortOrder <= m[r[j]].sortOrder
    {
      assert r[j] == rest[j - 1] && r[j] in s - {c};
      if i == 0 {
        assert Precedes(m, c, r[j]);
      } else {
        assert r[i] == rest[i - 1];
      }
    }
  }

  /** `c` comes first among `s` by sort_order, ties broken by id. */
  predicate IsFirst(m: Forest, s: set<Id>, c: Id)
    requires s <= m.Keys
  {
    c in s && forall d :: d in s ==> Precedes(m, c, d)
  }

  /** `.order_by('sort_order')` over a set of categories: each one exactly
      once, in non-decreasing sort_order. */
  function OrderBySortOrder(m: Forest, s: set<Id>): (r: seq<Id>)
    requires s <= m.Keys
    ensures OrderedListing(m, s, r)
    decreases s
  {
    if s == {} then []
    else
      assert exists c :: IsFirst(m, s, c) by {
        var c := First(m, s);
        assert IsFirst(m, s, c);
      }
      assert forall a, b :: IsFirst(m, s, a) && IsFirst(m, s, b) ==> a == b by {
        forall a, b | IsFirst(m, s, a) && IsFirst(m, s, b)
          ensures a == b
        {
          assert Precedes(m, a, b) && Precedes(m, b, a);
        }
      }
      var c :| IsFirst(m, s, c);
      var rest := OrderBySortOrder(m, s - {c});
      PrependFirst(m, s, c, rest);
      [c] + rest
  }

  /** Listing a set by sort_order starts with its first category. */
  lemma OrderBySortOrderStep(m: Forest, s: set<Id>, c: Id)
    requires s <= m.Keys && IsFirst(m, s, c)
    ensures OrderBySortOrder(m, s) == [c] + OrderBySortOrder(m, s - {c})
  {
  }

  /** The active entries of a listing, in the same order. */
  function ActiveOnly(m: Forest, ids: seq<Id>): (r: seq<Id>)
    requires forall i :: 0 <= i < |ids| ==> ids[i] in m
    ensures |r| <= |ids|
    ensures forall i :: 0 <= i < |r| ==> r[i] in ids && m[r[i]].isActive
  {
    if ids == [] then []
    else if m[ids[0]].isActive then [ids[0]] + ActiveOnly(m, ids[1..])
    else ActiveOnly(m, ids[1..])
  }

  /** The active categories of a set. */
  function ActiveIn(m: Forest, s: set<Id>): (a: set<Id>)
    requires s <= m.Keys
    ensures a <= s
    ensures forall x :: x in a <==> x in s && m[x].isActive
  {
    set x | x in s && m[x].isActive
  }

  /** Keeping the active entries of a set's listing by sort_order gives the
      listing of the set's active categories: the two orders agree. */
  lemma {:induction false} ActiveOnlyOfListing(m: Forest, s: set<Id>)
    requires s <= m.Keys
    ensures ActiveOnly(m, OrderBySortOrder(m, s)) == OrderBySortOrder(m, ActiveIn(m, s))
    decreases s
  {
    var a := ActiveIn(m, s);
    if s == {} {
      assert a == {};
    } else {
      var c := First(m, s);
      OrderBySortOrderStep(m, s, c);
      var rest := OrderBySortOrder(m, s - {c});
      ActiveOnlyOfListing(m, s - {c});
      ActiveOnlyCons(m, c, rest);
      ActiveInRemove(m, s, c);
      if m[c].isActive {
        OrderBySortOrderStep(m, a, c);
      }
    }
  }

  lemma ActiveOnlyCons(m: Forest, c: Id, rest: seq<Id>)
    requires c in m && forall i :: 0 <= i < |rest| ==> rest[i] in m
    ensures ActiveOnly(m, [c] + rest)
      == if m[c].isActive then [c] + ActiveOnly(m, rest) else ActiveOnly(m, rest)
  {
    assert ([c] + rest)[1..] == rest;
  }

  lemma ActiveInRemove(m: Forest, s: set<Id>, c: Id)
    requires s <= m.Keys && c in s
    ensures ActiveIn(m, s - {c}) == ActiveIn(m, s) - {c}
    ensures !m[c].isActive ==> ActiveIn(m, s - {c}) == ActiveIn(m, s)
  {
  }


  /** The categories whose parent is `x` (the `children` related name). */
  function ChildIds(m: Forest, x: Id): (s: set<Id>)
    ensures s <= m.Keys
    ensures forall c :: c in s <==> c in m && m[c].parent == Some(x)
  {
    set c | c in m && m[c].parent == Some(x)
  }

  /** `filter(parent__isnull=True)`, optionally also `is_active=True`. */
  function RootIds(m: Forest, activeOnly: bool): (s: set<Id>)
    ensures s <= m.Keys
    ensures forall c :: c in s <==> c in m && m[c].parent.None? && (!activeOnly || m[c].isActive)
  {
    set c | c in m && m[c].parent == None && (!activeOnly || m[c].isActive)
  }

  /** A category is a descendant of `x` exactly when it is `x` or a
      descendant of one of `x`'s children. */
  lemma DescendantsStep(m: Forest, x: Id, y: Id)
    requires Valid(m) && x in m
    ensures y in Descendants(m, x) <==>
      y == x || exists c :: c in ChildIds(m, x) && y in Descendants(m, c)
  {
    if y in m {
      var l := Lineage(m, y);
      LineageIsRootPath(m, y);
      if y != x && x in l {
        var k :| 0 <= k < |l| && l[k] == x;
        var c := l[k - 1];
        assert c in ChildIds(m, x);
        assert y in Descendants(m, c);
      }
      if y != x && exists c :: c in ChildIds(m, x) && y in Descendants(m, c) {
        var c :| c in ChildIds(m, x) && y in Descendants(m, c);
        var k :| 0 <= k < |l| && l[k] == c;
        assert k < |l| - 1;
        assert l[k + 1] == x;
      }
    } else {
      if exists c :: c in ChildIds(m, x) && y in Descendants(m, c) {
      }
    }
    if y == x {
      LineageIsRootPath(m, x);
    }
  }
}
