/** The page script's view: one render step as a function of the manifest,
    the search box and the requested page, and the mutable view state that
    the script keeps between renders. */
module Viewer {
  import opened Scanner
  import opened Search
  import opened Paging

  /** Records per page and numbered buttons per window, as configured. */
  const ItemsPerPage: int := 40
  const MaxPageButtons: int := 10

  /** What one render produces: the page it settled on, the page count, the
      records shown in the grid and the pagination controls. */
  datatype View = View(page: int, totalPages: int, items: seq<Icon>, buttons: seq<Button>)

  /** One render of `requested`: filter, count the pages, clamp the page,
      slice it and build the controls. */
  function Render(icons: seq<Icon>, input: string, requested: int, perPage: int, maxButtons: int): View
    requires perPage >= 1
  {
    var filtered := FilterIcons(icons, input);
    var totalPages := TotalPages(|filtered|, perPage);
    var page := ClampPage(requested, totalPages);
    View(page, totalPages, PageItems(filtered, page, perPage), PaginationButtons(page, totalPages, maxButtons))
  }

  /** The page a render of a page at or above 1 settles on: the page count
      is the ceiling of the matches over the page size, and the page lies
      within `[1, max(totalPages, 1)]`; it is the requested page whenever that
      exists and `max(totalPages, 1)` otherwise. */
  lemma RenderSettlesInRange(icons: seq<Icon>, input: string, requested: int, perPage: int, maxButtons: int)
    requires requested >= 1 && perPage >= 1
    ensures var v, n := Render(icons, input, requested, perPage, maxButtons), |FilterIcons(icons, input)|;
      && v.totalPages * perPage >= n
      && (v.totalPages == 0 || (v.totalPages - 1) * perPage < n)
      && 1 <= v.page <= Max(v.totalPages, 1)
      && (requested <= v.totalPages ==> v.page == requested)
      && (requested > v.totalPages ==> v.page == Max(v.totalPages, 1))
  {
    var n := |FilterIcons(icons, input)|;
    ClampPageInRange(requested, TotalPages(n, perPage));
  }

  /** The grid of a render shows the slice of the matches that belongs to its
      page, at most `perPage` records. */
  lemma RenderShowsPageSlice(icons: seq<Icon>, input: string, requested: int, perPage: int, maxButtons: int)
    requires requested >= 1 && perPage >= 1
    ensures var v, filtered := Render(icons, input, requested, perPage, maxButtons), FilterIcons(icons, input);
      && v.page >= 1
      && 0 <= (v.page - 1) * perPage <= v.page * perPage
      && v.items == filtered[Min((v.page - 1) * perPage, |filtered|)..Min(v.page * perPage, |filtered|)]
      && |v.items| <= perPage
  {
    var v := Render(icons, input, requested, perPage, maxButtons);
    var filtered := FilterIcons(icons, input);
    ClampPageInRange(requested, v.totalPages);
    PageItemsRange(filtered, v.page, perPage);
  }

  /** A render shows controls exactly when there is more than one page, and
      every enabled control leads to a page within the page count. */
  lemma RenderControls(icons: seq<Icon>, input: string, requested: int, perPage: int, maxButtons: int)
    requires requested >= 1 && perPage >= 1
    ensures var v := Render(icons, input, requested, perPage, maxButtons);
      && (v.buttons == [] <==> v.totalPages <= 1)
      && (forall k :: 0 <= k < |v.buttons| && !v.buttons[k].disabled ==>
            1 <= v.buttons[k].target <= v.totalPages)
  {
    var filtered := FilterIcons(icons, input);
    var totalPages := TotalPages(|filtered|, perPage);
    var page := ClampPage(requested, totalPages);
    ClampPageInRange(requested, totalPages);
    SinglePageHasNoControls(page, totalPages, maxButtons);
    EnabledTargetsInRange(page, totalPages, maxButtons);
  }

  /** Rendering the page a render settled on gives the same view again. */
  lemma RenderSettles(icons: seq<Icon>, input: string, requested: int, perPage: int, maxButtons: int)
    requires requested >= 1 && perPage >= 1
    ensures var v := Render(icons, input, requested, perPage, maxButtons);
      Render(icons, input, v.page, perPage, maxButtons) == v
  {
    var v := Render(icons, input, requested, perPage, maxButtons);
    ClampPageInRange(requested, v.totalPages);
  }

  /** A search that matches nothing shows page 1 of zero pages: an empty grid
      and no controls. */
  lemma NoMatchesView(icons: seq<Icon>, input: string, requested: int, perPage: int, maxButtons: int)
    requires requested >= 1 && perPage >= 1
    requires forall k :: 0 <= k < |icons| ==> !Matches(icons[k], SearchTerm(input))
    ensures Render(icons, input, requested, perPage, maxButtons) == View(1, 0, [], [])
  {
    FilterIconsEmptyIff(icons, input);
  }

  /** The view state of the page script: the loaded manifest, the value of the
      search box, the current page, and what is on screen (the records in the
      grid and the pagination controls). */
  class ViewState {
    var allIcons: seq<Icon>
    var searchValue: string
    var currentPage: int
    var grid: seq<Icon>
    var controls: seq<Button>

    /** The screen shows the render of the current page, which is a page the
        render settles on. */
    ghost predicate Valid()
      reads this
    {
      var v := Render(allIcons, searchValue, currentPage, ItemsPerPage, MaxPageButtons);
      && currentPage >= 1
      && v.page == currentPage
      && grid == v.items
      && controls == v.buttons
    }

    /** Before the manifest arrives: no records, page 1, nothing on screen. */
    constructor ()
      ensures Valid()
      ensures allIcons == [] && searchValue == "" && currentPage == 1
      ensures grid == [] && controls == []
    {
      allIcons := [];
      searchValue := "";
      currentPage := 1;
      grid := [];
      controls := [];
    }

    /** `renderPage(page)`: the current page becomes `page`, clamped to the
        page count of the filtered records, and the grid and the controls are
        redrawn for it. */
    method RenderPage(page: int)
      modifies this
      ensures allIcons == old(allIcons) && searchValue == old(searchValue)
      ensures var v := Render(allIcons, searchValue, page, ItemsPerPage, MaxPageButtons);
        currentPage == v.page && grid == v.items && controls == v.buttons
      ensures page >= 1 ==> Valid()
    {
      ghost var v := Render(allIcons, searchValue, page, ItemsPerPage, MaxPageButtons);
      currentPage := page;
      var filtered := FilterIcons(allIcons, searchValue);
      var totalPages := TotalPages(|filtered|, ItemsPerPage);
      if currentPage > totalPages {
        currentPage := Max(totalPages, 1);
      }
      assert currentPage == v.page;
      var start := (currentPage - 1) * ItemsPerPage;
      var end := start + ItemsPerPage;
      grid := JsSlice(filtered, start, end);
      assert grid == v.items;
      controls := RenderPagination(currentPage, totalPages, MaxPageButtons);
      assert controls == v.buttons;
      if page >= 1 {
        RenderSettles(allIcons, searchValue, page, ItemsPerPage, MaxPageButtons);
      }
    }

    /** The manifest has been fetched: store it and render page 1. */
    method LoadIcons(data: seq<Icon>)
      modifies this
      ensures Valid()
      ensures allIcons == data && searchValue == old(searchValue) && currentPage == 1
    {
      allIcons := data;
      RenderPage(1);
    }

    /** The search box settled on `value`: render page 1 of the new matches. */
    method SearchFor(value: string)
      modifies this
      ensures Valid()
      ensures allIcons == old(allIcons) && searchValue == value && currentPage == 1
    {
      searchValue := value;
      RenderPage(1);
    }

    /** A click on control `k`: a disabled control does nothing, an enabled one
        renders its target page, which keeps the state valid. */
    method Press(k: nat)
      requires Valid() && k < |controls|
      modifies this
      ensures Valid()
      ensures allIcons == old(allIcons) && searchValue == old(searchValue)
      ensures old(controls[k].disabled) ==>
        currentPage == old(currentPage) && grid == old(grid) && controls == old(controls)
      ensures !old(controls[k].disabled) ==> currentPage == old(controls[k].target)
    {
      var button := controls[k];
      if !button.disabled {
        RenderControls(allIcons, searchValue, currentPage, ItemsPerPage, MaxPageButtons);
        RenderPage(button.target);
        RenderSettlesInRange(allIcons, searchValue, button.target, ItemsPerPage, MaxPageButtons);
      }
    }
  }
}
