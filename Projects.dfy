/** The project gallery: a fixed catalog, a row of category filter buttons with one
    selected filter, and the derived list of projects shown as a grid of cards. */
module Projects {
  import opened ProjectCard

  /** The catalog shown by the gallery, in display order (descriptions are prose
      and are left empty here; images are named by their asset file). */
  const Catalog: seq<Project> := [
    Project(1, "klar-Institut", "", "klar.png",
            ["React", "Node.js", "MongoDB", "Express"],
            "", "https://klarinstitut.vercel.app", "Full Stack", "2025"),
    Project(2, "Instashots", "", "instashots.png",
            ["React", "Node.js", "MongoDB", "Express", "JWT"],
            "https://github.com/Samuelosoba/INSTASHOT", "https://instashot-swart.vercel.app/",
            "Full Stack", "2025"),
    Project(3, "Task Duty", "", "taskduty.png",
            ["React", "Node.js", "MongoDB", "Express", "JWT"],
            "https://github.com/Samuelosoba/Task-Duty", "https://task-duty-client.vercel.app/",
            "Full Stack", "2025"),
    Project(4, "Newgold22 Travels", "", "newgold.png",
            ["React", "Node.js"],
            "", "https://newgold22travels.ng", "Frontend", "2025")
  ]

  /** The filter button that shows the whole catalog. */
  const AllFilter: string := "All"

  /** The filter buttons, in display order. */
  const Filters: seq<string> := [AllFilter, "Full Stack", "Frontend", "Backend"]

  /** The projects of `ps` whose category is `category`, in their order in `ps`. */
  function WithCategory(ps: seq<Project>, category: string): (r: seq<Project>)
    ensures |r| <= |ps|
    ensures forall p :: p in r <==> p in ps && p.category == category
  {
    if ps == [] then []
    else if ps[0].category == category then [ps[0]] + WithCategory(ps[1..], category)
    else WithCategory(ps[1..], category)
  }

  /** Filtering keeps every copy of a project of the category and drops every copy of
      the others: as a multiset, the result is the input restricted to the category. */
  lemma {:induction false} WithCategoryMultiplicity(ps: seq<Project>, category: string, p: Project)
    ensures multiset(WithCategory(ps, category))[p] == if p.category == category then multiset(ps)[p] else 0
  {
    if ps != [] {
      WithCategoryMultiplicity(ps[1..], category, p);
      assert ps == [ps[0]] + ps[1..];
    }
  }

  /** The list the gallery shows for the selected filter. */
  function FilteredProjects(catalog: seq<Project>, selected: string): (r: seq<Project>)
    ensures |r| <= |catalog|
    ensures selected == AllFilter ==> r == catalog
    ensures selected != AllFilter ==> forall p :: p in r <==> p in catalog && p.category == selected
  {
    if selected == AllFilter then catalog else WithCategory(catalog, selected)
  }

  /** `xs` is `ys` with some elements removed and the rest kept in order. */
  predicate IsSubsequence<T(==)>(xs: seq<T>, ys: seq<T>)
    decreases |ys|
  {
    if xs == [] then true
    else if ys == [] then false
    else if xs[0] == ys[0] then IsSubsequence(xs[1..], ys[1..])
    else IsSubsequence(xs, ys[1..])
  }

  lemma {:induction false} SubsequenceNotLonger<T>(xs: seq<T>, ys: seq<T>)
    requires IsSubsequence(xs, ys)
    ensures |xs| <= |ys|
    decreases |ys|
  {
    if xs != [] {
      if xs[0] == ys[0] {
        SubsequenceNotLonger(xs[1..], ys[1..]);
      } else {
        SubsequenceNotLonger(xs, ys[1..]);
      }
    }
  }

  /** Filtering keeps the catalog's order: the result is a subsequence of the input. */
  lemma {:induction false} WithCategoryIsSubsequence(ps: seq<Project>, category: string)
    ensures IsSubsequence(WithCategory(ps, category), ps)
  {
    if ps != [] {
      var rest := WithCategory(ps[1..], category);
      WithCategoryIsSubsequence(ps[1..], category);
      if ps[0].category == category {
        assert ([ps[0]] + rest)[1..] == rest;
      } else if rest != [] {
        assert rest[0] in rest;
        assert rest[0] != ps[0];
      }
    }
  }

  /** Whatever the selection, the shown list is an order-preserving subsequence of the
      catalog and so never longer than it. */
  lemma FilteredIsOrderedSubsequence(catalog: seq<Project>, selected: string)
    ensures IsSubsequence(FilteredProjects(catalog, selected), catalog)
    ensures |FilteredProjects(catalog, selected)| <= |catalog|
  {
    if selected == AllFilter {
      SubsequenceReflexive(catalog);
    } else {
      WithCategoryIsSubsequence(catalog, selected);
    }
    SubsequenceNotLonger(FilteredProjects(catalog, selected), catalog);
  }

  lemma {:induction false} SubsequenceReflexive<T>(xs: seq<T>)
    ensures IsSubsequence(xs, xs)
  {
    if xs != [] {
      SubsequenceReflexive(xs[1..]);
    }
  }

  /** Filtering the shown list again by the same category changes nothing. */
  lemma {:induction false} WithCategoryIdempotent(ps: seq<Project>, category: string)
    ensures WithCategory(WithCategory(ps, category), category) == WithCategory(ps, category)
  {
    if ps != [] {
      WithCategoryIdempotent(ps[1..], category);
      if ps[0].category == category {
        var rest := WithCategory(ps[1..], category);
        assert ([ps[0]] + rest)[0] == ps[0];
        assert ([ps[0]] + rest)[1..] == rest;
      }
    }
  }

  lemma FilteredIdempotent(catalog: seq<Project>, selected: string)
    requires selected != AllFilter
    ensures WithCategory(FilteredProjects(catalog, selected), selected) == FilteredProjects(catalog, selected)
  {
    WithCategoryIdempotent(catalog, selected);
  }

  /** The projects' ids strictly increase along `ps`. */
  predicate IdsIncreasing(ps: seq<Project>)
  {
    forall i, j :: 0 <= i < j < |ps| ==> ps[i].id < ps[j].id
  }

  /** Order in terms of the catalog's ids: a catalog listed by increasing id is
      shown by increasing id under every filter. */
  lemma {:induction false} WithCategoryKeepsIdOrder(ps: seq<Project>, category: string)
    requires IdsIncreasing(ps)
    ensures IdsIncreasing(WithCategory(ps, category))
  {
    if ps != [] {
      var tail := ps[1..];
      var rest := WithCategory(tail, category);
      WithCategoryKeepsIdOrder(tail, category);
      if ps[0].category == category {
        HeadBelowTail(ps);
        ConsIncreasing(ps[0], rest);
      }
    }
  }

  /** In a list of increasing ids the first id is below every later one. */
  lemma HeadBelowTail(ps: seq<Project>)
    requires ps != [] && IdsIncreasing(ps)
    ensures forall q :: q in ps[1..] ==> ps[0].id < q.id
  {
    forall q | q in ps[1..] ensures ps[0].id < q.id {
      var k :| 0 <= k < |ps| - 1 && ps[1..][k] == q;
      assert ps[k + 1] == q;
    }
  }

  /** A project with an id below all of an increasing list can go in front of it. */
  lemma ConsIncreasing(p: Project, xs: seq<Project>)
    requires IdsIncreasing(xs) && forall q :: q in xs ==> p.id < q.id
    ensures IdsIncreasing([p] + xs)
  {
    var r := [p] + xs;
    forall i, j | 0 <= i < j < |r| ensures r[i].id < r[j].id {
      assert r[j] == xs[j - 1];
      if i > 0 {
        assert r[i] == xs[i - 1];
      }
    }
  }

  /** The shipped catalog: ids 1 to 4 in order. */
  lemma CatalogIdsIncreasing()
    ensures IdsIncreasing(Catalog)
    ensures forall k :: 0 <= k < |Catalog| ==> Catalog[k].id == k + 1
  {
  }

  /** With the shipped catalog: "Full Stack" shows projects 1, 2 and 3 in that order,
      "Frontend" shows project 4 alone, and "Backend" shows nothing, without error. */
  lemma ShippedCatalogViews()
    ensures FilteredProjects(Catalog, "Full Stack") == Catalog[..3]
    ensures FilteredProjects(Catalog, "Frontend") == [Catalog[3]]
    ensures FilteredProjects(Catalog, "Backend") == []
    ensures FilteredProjects(Catalog, AllFilter) == Catalog
  {
  }

  /** Every technology of the shipped catalog is in the icon table, so every badge of
      every card is an icon and none falls back to text. */
  lemma ShippedCatalogAllIcons(k: nat, t: nat)
    requires k < |Catalog| && t < |Catalog[k].technologies|
    ensures Catalog[k].technologies[t] in TechIcons
    ensures Render(Catalog[k], k).badges[t].IconBadge?
  {
  }

  /** Which filter buttons are drawn as active, one flag per button. */
  function ActiveButtons(selected: string): (flags: seq<bool>)
    ensures |flags| == |Filters|
    ensures forall k :: 0 <= k < |Filters| ==> (flags[k] <==> Filters[k] == selected)
  {
    seq(|Filters|, k requires 0 <= k < |Filters| => Filters[k] == selected)
  }

  /** The filter names are distinct, so after clicking a button exactly that button,
      and no other, is active. */
  lemma ExactlyOneActive(k: nat)
    requires k < |Filters|
    ensures ActiveButtons(Filters[k])[k]
    ensures forall m :: 0 <= m < |Filters| && m != k ==> !ActiveButtons(Filters[k])[m]
  {
  }

  /** The grid: the card of the project at position i receives index i. */
  function Grid(shown: seq<Project>): (cards: seq<CardView>)
    ensures |cards| == |shown|
    ensures forall i :: 0 <= i < |shown| ==> cards[i] == Render(shown[i], i)
  {
    seq(|shown|, i requires 0 <= i < |shown| => Render(shown[i], i))
  }

  /** Cards enter one after another: entrance delays never decrease along the grid. */
  lemma GridDelaysNonDecreasing(shown: seq<Project>, i: nat, j: nat)
    requires i <= j < |shown|
    ensures Grid(shown)[i].delayTenths <= Grid(shown)[j].delayTenths
    ensures Grid(shown)[i].delayTenths == 2 * i
  {
  }

  /** The gallery's state: the selected filter. */
  class ProjectFilter {
    var selectedFilter: string

    /** The gallery starts with "All" selected. */
    constructor ()
      ensures selectedFilter == AllFilter
      ensures Shown() == Catalog
    {
      selectedFilter := AllFilter;
    }

    /** The list of projects currently shown. */
    function Shown(): (r: seq<Project>)
      reads this
      ensures |r| <= |Catalog|
      ensures selectedFilter == AllFilter ==> r == Catalog
      ensures forall p :: p in r ==> p in Catalog && (selectedFilter == AllFilter || p.category == selectedFilter)
    {
      FilteredProjects(Catalog, selectedFilter)
    }

    /** Clicking a filter button selects exactly that filter. */
    method SelectFilter(filter: string)
      modifies this
      ensures selectedFilter == filter
      ensures Shown() == FilteredProjects(Catalog, filter)
    {
      selectedFilter := filter;
    }
  }
}
