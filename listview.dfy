/**
 * The list view's paging and selection rules: the pagination strip (a window
 * of ten numbered pages with "First"/"Last" markers and ellipses), the
 * next/prev/goToPage/sort commands, the clamping of the page number after a
 * load, and the small lookup helpers used to fill the grid.
 *
 * JavaScript numbers are modelled as integers and loose comparisons as exact ones.
 */
module ListView {
  import opened Common

  // ---------------------------------------------------------------------
  // The pagination strip
  // ---------------------------------------------------------------------

  /** The `val` of an entry: a page number or the "..." marker. */
  datatype PageVal = Page(n: int) | Dots

  /** One entry of `$scope.pagination`; `name` is "First" or "Last" on the end markers. */
  datatype PageLink = PageLink(name: Option<string>, val: PageVal, isActive: bool)

  /** The number of numbered entries in the strip. */
  const WindowSize := 10

  const FirstMarker := PageLink(Some("First"), Page(1), false)
  const Ellipsis := PageLink(None, Dots, false)

  function LastMarker(totalPages: int): PageLink {
    PageLink(Some("Last"), Page(totalPages), false)
  }

  function Max(a: int, b: int): int { if a >= b then a else b }
  function Min(a: int, b: int): int { if a <= b then a else b }

  /** The zero-based index of the first numbered page when there are more than ten pages. */
  function WindowStart(totalPages: int, pageNumber: int): (start: int)
    ensures totalPages > WindowSize ==> 0 <= start <= totalPages - WindowSize
    ensures start <= totalPages - WindowSize
  {
    Min(totalPages - WindowSize, Max(pageNumber - 5, 0))
  }

  /** `count` numbered entries for pages `from + 1 .. from + count`, the current one active. */
  function Numbered(from: int, count: nat, pageNumber: int): (r: seq<PageLink>)
    ensures |r| == count
    ensures forall i :: 0 <= i < count ==> r[i].name.None? && r[i].val == Page(from + i + 1)
  {
    seq(count, i => PageLink(None, Page(from + i + 1), pageNumber == from + i + 1))
  }

  /** The pagination strip that a load of `totalPages` pages leaves on the scope. */
  function Pagination(totalPages: int, pageNumber: int): (p: seq<PageLink>)
    ensures totalPages <= WindowSize ==> |p| == Max(totalPages, 0)
    ensures totalPages > WindowSize ==> WindowSize <= |p| <= WindowSize + 4
  {
    if totalPages <= WindowSize then
      Numbered(0, Max(totalPages, 0), pageNumber)
    else
      var start := WindowStart(totalPages, pageNumber);
      (if start > 0 then [FirstMarker, Ellipsis] else [])
      + Numbered(start, WindowSize, pageNumber)
      + (if start < totalPages - WindowSize then [Ellipsis, LastMarker(totalPages)] else [])
  }

  /** The number of active entries. */
  function CountActive(p: seq<PageLink>): nat {
    if p == [] then 0 else (if p[0].isActive then 1 else 0) + CountActive(p[1..])
  }

  lemma {:induction false} CountActiveAppend(a: seq<PageLink>, b: seq<PageLink>)
    ensures CountActive(a + b) == CountActive(a) + CountActive(b)
  {
    if a == [] {
      assert a + b == b;
    } else {
      assert (a + b)[1..] == a[1..] + b;
      CountActiveAppend(a[1..], b);
    }
  }

  lemma NumberedSnoc(from: int, count: nat, pageNumber: int)
    ensures Numbered(from, count + 1, pageNumber) ==
            Numbered(from, count, pageNumber) + [PageLink(None, Page(from + count + 1), pageNumber == from + count + 1)]
  {
  }

  /** Numbered pages `from + 1 .. from + count` hold one active entry exactly when the current page is among them. */
  lemma {:induction false} CountActiveNumbered(from: int, count: nat, pageNumber: int)
    ensures CountActive(Numbered(from, count, pageNumber)) ==
            if from < pageNumber <= from + count then 1 else 0
  {
    if count > 0 {
      NumberedSnoc(from, count - 1, pageNumber);
      CountActiveNumbered(from, count - 1, pageNumber);
      var last := [PageLink(None, Page(from + count), pageNumber == from + count)];
      CountActiveAppend(Numbered(from, count - 1, pageNumber), last);
      assert CountActive(last) == if pageNumber == from + count then 1 else 0 by {
        assert last[1..] == [];
      }
    }
  }

  /**
   * Builds the strip as the load callback does: numbered pages pushed one at a
   * time, then the "First", "..." pair put in front and the "...", "Last" pair
   * pushed at the end when the window does not reach those ends.
   */
  method BuildPagination(totalPages: int, pageNumber: int) returns (pagination: seq<PageLink>)
    ensures pagination == Pagination(totalPages, pageNumber)
  {
    pagination := [];
    if totalPages <= WindowSize {
      var i := 0;
      while i < totalPages
        invariant 0 <= i && (i == 0 || i <= totalPages)
        invariant pagination == Numbered(0, i, pageNumber)
      {
        NumberedSnoc(0, i, pageNumber);
        pagination := pagination + [PageLink(None, Page(i + 1), pageNumber == i + 1)];
        i := i + 1;
      }
    } else {
      var maxIndex := totalPages - WindowSize;
      var start := Max(pageNumber - 5, 0);
      start := Min(maxIndex, start);
      var i := start;
      while i < WindowSize + start
        invariant start <= i <= WindowSize + start
        invariant pagination == Numbered(start, i - start, pageNumber)
      {
        NumberedSnoc(start, i - start, pageNumber);
        pagination := pagination + [PageLink(None, Page(i + 1), pageNumber == i + 1)];
        i := i + 1;
      }
      if start > 0 {
        pagination := [FirstMarker, Ellipsis] + pagination;
      }
      if start < maxIndex {
        pagination := pagination + [Ellipsis, LastMarker(totalPages)];
      }
    }
  }

  /** With at most ten pages the strip is pages 1..totalPages in order, the current one active. */
  lemma SmallPagination(totalPages: int, pageNumber: int)
    requires totalPages <= WindowSize
    ensures var p := Pagination(totalPages, pageNumber);
      |p| == Max(totalPages, 0) &&
      forall i :: 0 <= i < |p| ==> p[i] == PageLink(None, Page(i + 1), pageNumber == i + 1)
  {
  }

  /**
   * With more than ten pages: exactly ten numbered entries start + 1 .. start + 10,
   * preceded by "First", "..." iff start > 0 and followed by "...", "Last" iff
   * start < totalPages - 10.
   */
  lemma {:induction false} LargePagination(totalPages: int, pageNumber: int)
    requires totalPages > WindowSize
    ensures var p := Pagination(totalPages, pageNumber);
      var start := WindowStart(totalPages, pageNumber);
      var off := if start > 0 then 2 else 0;
      var tail := if start < totalPages - WindowSize then 2 else 0;
      |p| == off + WindowSize + tail &&
      p[off..off + WindowSize] == Numbered(start, WindowSize, pageNumber) &&
      (p[0] == FirstMarker <==> start > 0) &&
      (start > 0 ==> p[1] == Ellipsis) &&
      (p[|p| - 1] == LastMarker(totalPages) <==> start < totalPages - WindowSize) &&
      (start < totalPages - WindowSize ==> p[|p| - 2] == Ellipsis)
  {
    var p := Pagination(totalPages, pageNumber);
    var start := WindowStart(totalPages, pageNumber);
    var pre: seq<PageLink> := if start > 0 then [FirstMarker, Ellipsis] else [];
    var mid := Numbered(start, WindowSize, pageNumber);
    var post: seq<PageLink> := if start < totalPages - WindowSize then [Ellipsis, LastMarker(totalPages)] else [];
    assert p == pre + mid + post;
    assert p[|pre|..|pre| + WindowSize] == mid;
    assert mid[0].name.None? && mid[WindowSize - 1].name.None?;
    assert p[0] == if start > 0 then FirstMarker else mid[0];
    assert p[|p| - 1] == if start < totalPages - WindowSize then LastMarker(totalPages) else mid[WindowSize - 1];
  }

  /** Exactly one entry is active when the page number is a real page, none otherwise. */
  lemma {:induction false} OneActiveEntry(totalPages: int, pageNumber: int)
    ensures CountActive(Pagination(totalPages, pageNumber)) ==
            if 1 <= pageNumber <= totalPages then 1 else 0
  {
    if totalPages <= WindowSize {
      CountActiveNumbered(0, Max(totalPages, 0), pageNumber);
    } else {
      var start := WindowStart(totalPages, pageNumber);
      var pre: seq<PageLink> := if start > 0 then [FirstMarker, Ellipsis] else [];
      var mid := Numbered(start, WindowSize, pageNumber);
      var post: seq<PageLink> := if start < totalPages - WindowSize then [Ellipsis, LastMarker(totalPages)] else [];
      CountActiveAppend(pre, mid);
      CountActiveAppend(pre + mid, post);
      assert CountActive(pre) == 0 by {
        if start > 0 { assert pre[1..][1..] == []; }
      }
      assert CountActive(post) == 0 by {
        if start < totalPages - WindowSize { assert post[1..][1..] == []; }
      }
      CountActiveNumbered(start, WindowSize, pageNumber);
    }
  }

  /** Every page number in the strip is a real page. */
  lemma {:induction false} PagesInRange(totalPages: int, pageNumber: int)
    ensures var p := Pagination(totalPages, pageNumber);
      forall i :: 0 <= i < |p| && p[i].val.Page? ==> 1 <= p[i].val.n <= totalPages
  {
    if totalPages > WindowSize {
      var start := WindowStart(totalPages, pageNumber);
      var pre: seq<PageLink> := if start > 0 then [FirstMarker, Ellipsis] else [];
      var mid := Numbered(start, WindowSize, pageNumber);
      var post: seq<PageLink> := if start < totalPages - WindowSize then [Ellipsis, LastMarker(totalPages)] else [];
      var p := Pagination(totalPages, pageNumber);
      assert p == pre + mid + post;
      forall i | 0 <= i < |p| && p[i].val.Page? ensures 1 <= p[i].val.n <= totalPages {
        if i < |pre| {
          assert p[i] == pre[i];
        } else if i < |pre| + |mid| {
          assert p[i] == mid[i - |pre|];
        } else {
          assert p[i] == post[i - |pre| - |mid|];
        }
      }
    }
  }

  // ---------------------------------------------------------------------
  // Sorting
  // ---------------------------------------------------------------------

  /** The direction `sort` switches to: "desc" becomes "asc", anything else becomes "desc". */
  function ToggledDirection(direction: string): (r: string)
    ensures r == "asc" <==> direction == "desc"
    ensures r == "desc" <==> direction != "desc"
  {
    if direction == "desc" then "asc" else "desc"
  }

  /** Sorting twice on an "asc" or "desc" column comes back to the same direction. */
  lemma ToggleTwice(direction: string)
    requires direction == "asc" || direction == "desc"
    ensures ToggledDirection(ToggledDirection(direction)) == direction
  {
  }

  /** `isSortDirection`: the column matches the sort column ignoring case, and the direction matches exactly. */
  function IsSortDirection(orderBy: string, orderDirection: string, col: string, direction: string): (r: bool)
    ensures r <==> orderDirection == direction && SameIgnoringCase(orderBy, col)
    ensures r ==> |orderBy| == |col| &&
                  forall i :: 0 <= i < |col| ==> AsciiUpper(orderBy)[i] == AsciiUpper(col)[i]
  {
    AsciiUpper(orderBy) == AsciiUpper(col) && orderDirection == direction
  }

  /** The answer does not depend on the casing of the sort column. */
  lemma {:induction false} IsSortDirectionIgnoresCase(orderBy: string, orderDirection: string, col: string, direction: string)
    ensures IsSortDirection(AsciiUpper(orderBy), orderDirection, col, direction) ==
            IsSortDirection(orderBy, orderDirection, col, direction)
    ensures IsSortDirection(orderBy, orderDirection, AsciiUpper(col), direction) ==
            IsSortDirection(orderBy, orderDirection, col, direction)
  {
    AsciiUpperIdempotent(orderBy);
    AsciiUpperIdempotent(col);
  }

  // ---------------------------------------------------------------------
  // Selection
  // ---------------------------------------------------------------------

  datatype ListItem = ListItem(id: int, selected: bool)

  /** `listViewResultSet.items`: an array of items, or some value that is not an array. */
  datatype ItemList = NotAnArray | Items(items: seq<ListItem>)

  /** Underscore's `_.every` over the `selected` flags. */
  function EverySelected(s: seq<ListItem>): (r: bool)
    ensures r <==> forall i :: 0 <= i < |s| ==> s[i].selected
  {
    if s == [] then true else s[0].selected && EverySelected(s[1..])
  }

  /** Underscore's `_.some` over the `selected` flags. */
  function SomeSelected(s: seq<ListItem>): (r: bool)
    ensures r <==> exists i :: 0 <= i < |s| && s[i].selected
  {
    if s == [] then false
    else if s[0].selected then true
    else
      var r := SomeSelected(s[1..]);
      assert forall i :: 1 <= i < |s| ==> s[i] == s[1..][i - 1];
      r
  }

  function IsSelectedAll(list: ItemList): (r: bool)
    ensures r <==> list.Items? && forall i :: 0 <= i < |list.items| ==> list.items[i].selected
  {
    list.Items? && EverySelected(list.items)
  }

  function IsAnythingSelected(list: ItemList): (r: bool)
    ensures r <==> list.Items? && exists i :: 0 <= i < |list.items| && list.items[i].selected
  {
    list.Items? && SomeSelected(list.items)
  }

  /** On a non-empty array, everything selected implies something selected; an empty array is all-selected but has nothing selected. */
  lemma SelectedAllImpliesAnything(list: ItemList)
    requires list.Items? && |list.items| > 0
    ensures IsSelectedAll(list) ==> IsAnythingSelected(list)
  {
    if IsSelectedAll(list) {
      assert list.items[0].selected;
    }
  }

  // ---------------------------------------------------------------------
  // Property lookup helpers
  // ---------------------------------------------------------------------

  datatype Property = Property(alias: string, value: string)

  /**
   * `getCustomPropertyValue`: scans for the first property with the alias,
   * counting the properties passed over, and returns that property's value,
   * or the empty string when none has the alias.
   */
  method GetCustomPropertyValue(alias: string, properties: seq<Property>) returns (value: string)
    ensures match FirstIndex(properties, (p: Property) => p.alias == alias)
      case None => value == ""
      case Some(k) => value == properties[k].value
  {
    value := "";
    var index := 0;
    var foundAlias := false;
    var i := 0;
    while i < |properties|
      invariant 0 <= i <= |properties| && index == i
      invariant forall j :: 0 <= j < i ==> properties[j].alias != alias
    {
      if properties[i].alias == alias {
        foundAlias := true;
        break;
      }
      index := index + 1;
      i := i + 1;
    }
    if foundAlias {
      value := properties[index].value;
    }
  }

  /** A value as the grid sees it: a string, or anything else. */
  datatype Value = Str(s: string) | NotAString

  /** The shape a date string must have, with 'd' standing for a decimal digit. */
  const DateShape := "dddd-dd-dd dd:dd:dd"

  predicate IsDigit(c: char) { '0' <= c <= '9' }

  /** Regular-expression group `\d{n}`: digits at positions lo .. hi - 1. */
  predicate DigitsAt(s: string, lo: nat, hi: nat)
    requires lo <= hi <= |s|
  {
    forall i :: lo <= i < hi ==> IsDigit(s[i])
  }

  /** `isDate`: a string matching yyyy-MM-dd HH:mm:ss, read group by group as the regular expression does. */
  predicate IsDate(v: Value): (r: bool)
    ensures r ==> v.Str? && |v.s| == 19 && v.s[4] == '-' && v.s[10] == ' ' && v.s[13] == ':'
  {
    match v
    case NotAString => false
    case Str(s) =>
      |s| == 19 &&
      DigitsAt(s, 0, 4) && s[4] == '-' && DigitsAt(s, 5, 7) && s[7] == '-' &&
      DigitsAt(s, 8, 10) && s[10] == ' ' && DigitsAt(s, 11, 13) && s[13] == ':' &&
      DigitsAt(s, 14, 16) && s[16] == ':' && DigitsAt(s, 17, 19)
  }

  /** A date is exactly a string that matches DateShape position by position. */
  lemma IsDateShape(v: Value)
    ensures IsDate(v) <==> v.Str? && |v.s| == |DateShape| &&
                           forall i :: 0 <= i < |DateShape| ==>
                             if DateShape[i] == 'd' then IsDigit(v.s[i]) else v.s[i] == DateShape[i]
  {
    if v.Str? && |v.s| == |DateShape| {
      var s := v.s;
      forall i | 0 <= i < |DateShape|
        ensures DateShape[i] == (if i == 4 || i == 7 then '-' else if i == 10 then ' '
                                 else if i == 13 || i == 16 then ':' else 'd')
      {
      }
    }
  }

  lemma DateExamples()
    ensures IsDate(Str("2014-05-01 12:30:45"))
    ensures !IsDate(Str("2014-05-01T12:30:45"))
    ensures !IsDate(Str("2014-05-01 12:30"))
  {
    assert !IsDate(Str("2014-05-01 12:30")) by {
      assert |"2014-05-01 12:30"| != |DateShape|;
    }
  }

  /** The aliases that have their own localization key. */
  const KnownAliases := ["sortOrder", "updateDate", "updater", "createDate", "owner",
                         "published", "contentTypeAlias", "email", "username"]

  /**
   * `getLocalizedKey`: the localization key of a column header; an alias
   * without its own key is its own key, and the content type column reads
   * "document type" only in a content list.
   */
  function GetLocalizedKey(alias: string, entityType: string): (r: string)
    ensures r == alias <==> alias !in KnownAliases
    ensures alias == "contentTypeAlias" ==>
      r == (if entityType == "content" then "content_documentType" else "content_mediatype")
  {
    match alias
    case "sortOrder" => "general_sort"
    case "updateDate" => "content_updateDate"
    case "updater" => "content_updatedBy"
    case "createDate" => "content_createDate"
    case "owner" => "content_createBy"
    case "published" => "content_isPublished"
    case "contentTypeAlias" => if entityType == "content" then "content_documentType" else "content_mediatype"
    case "email" => "general_email"
    case "username" => "general_username"
    case _ => alias
  }

  // ---------------------------------------------------------------------
  // The controller's scope
  // ---------------------------------------------------------------------

  /** The page a list opens on: the `page` route parameter when it is a positive number, else 1. */
  function InitialPage(routePage: Option<int>): (r: int)
    ensures r >= 1
    ensures routePage.Some? && routePage.value > 0 ==> r == routePage.value
    ensures routePage.None? ==> r == 1
    ensures routePage.Some? && routePage.value <= 0 ==> r == 1
  {
    if routePage.Some? && routePage.value > 0 then routePage.value else 1
  }

  /**
   * The part of `$scope` the paging rules touch: `options.pageNumber`,
   * `options.orderBy`, `options.orderDirection`, `listViewResultSet`,
   * `pagination`, and a count of the reloads requested.
   */
  class ListViewScope {
    var pageNumber: int
    var orderBy: string
    var orderDirection: string
    var totalPages: int
    var items: ItemList
    var pagination: seq<PageLink>
    var reloads: nat

    /** A page number that names a real page of the last load. */
    predicate PageInRange()
      reads this
    {
      1 <= pageNumber <= totalPages
    }

    /**
     * The initial options: the route's page, and the configured sort column and
     * direction or their defaults. `None` stands for every falsy configured
     * value (absent, null or the empty string), which falls back to the default.
     */
    constructor (routePage: Option<int>, configOrderBy: Option<string>, configOrderDirection: Option<string>)
      ensures pageNumber == InitialPage(routePage) && pageNumber >= 1
      ensures orderBy == (if configOrderBy.Some? then configOrderBy.value else "VersionDate")
      ensures orderDirection == (if configOrderDirection.Some? then configOrderDirection.value else "desc")
      ensures totalPages == 0 && items == Items([]) && pagination == [] && reloads == 0
    {
      pageNumber := InitialPage(routePage);
      orderBy := if configOrderBy.Some? then configOrderBy.value else "VersionDate";
      orderDirection := if configOrderDirection.Some? then configOrderDirection.value else "desc";
      totalPages := 0;
      items := Items([]);
      pagination := [];
      reloads := 0;
    }

    /** `next`: one page on and a reload, only while below the last page. */
    method Next()
      modifies this`pageNumber, this`reloads
      ensures old(pageNumber) < totalPages ==> pageNumber == old(pageNumber) + 1 && reloads == old(reloads) + 1
      ensures old(pageNumber) >= totalPages ==> pageNumber == old(pageNumber) && reloads == old(reloads)
      ensures old(PageInRange()) ==> PageInRange()
    {
      if pageNumber < totalPages {
        pageNumber := pageNumber + 1;
        reloads := reloads + 1;
      }
    }

    /** `prev`: one page back and a reload, only while above the first page. */
    method Prev()
      modifies this`pageNumber, this`reloads
      ensures old(pageNumber) > 1 ==> pageNumber == old(pageNumber) - 1 && reloads == old(reloads) + 1
      ensures old(pageNumber) <= 1 ==> pageNumber == old(pageNumber) && reloads == old(reloads)
      ensures old(PageInRange()) ==> PageInRange()
    {
      if pageNumber > 1 {
        pageNumber := pageNumber - 1;
        reloads := reloads + 1;
      }
    }

    /** `goToPage`: takes the zero-based index of a strip entry; there is no bound check. */
    method GoToPage(index: int)
      modifies this`pageNumber, this`reloads
      ensures pageNumber == index + 1 && reloads == old(reloads) + 1
    {
      pageNumber := index + 1;
      reloads := reloads + 1;
    }

    /** `sort`: when allowed, sorts on `field` and toggles the direction, then reloads. */
    method Sort(field: string, allow: bool)
      modifies this`orderBy, this`orderDirection, this`reloads
      ensures !allow ==> unchanged(this)
      ensures allow ==> orderBy == field && orderDirection == ToggledDirection(old(orderDirection)) &&
                        reloads == old(reloads) + 1
    {
      if allow {
        orderBy := field;
        orderDirection := ToggledDirection(orderDirection);
        reloads := reloads + 1;
      }
    }

    /** `search` (after its debounce): back to the first page and reload. */
    method Search()
      modifies this`pageNumber, this`reloads
      ensures pageNumber == 1 && reloads == old(reloads) + 1
    {
      pageNumber := 1;
      reloads := reloads + 1;
    }

    /** `selectAll`: every item takes the checkbox's state; nothing happens when items is not an array. */
    method SelectAll(checked: bool)
      modifies this`items
      ensures old(items).NotAnArray? ==> items == old(items)
      ensures old(items).Items? ==>
        items.Items? && |items.items| == |old(items).items| &&
        forall i :: 0 <= i < |items.items| ==> items.items[i] == old(items).items[i].(selected := checked)
      ensures old(items).Items? && checked ==> IsSelectedAll(items)
      ensures !checked ==> !IsAnythingSelected(items)
    {
      if items.NotAnArray? {
        return;
      }
      var list := items.items;
      var i := 0;
      while i < |list|
        invariant 0 <= i <= |list| && |list| == |old(items).items|
        invariant forall j :: 0 <= j < i ==> list[j] == old(items).items[j].(selected := checked)
        invariant forall j :: i <= j < |list| ==> list[j] == old(items).items[j]
      {
        list := list[i := list[i].(selected := checked)];
        i := i + 1;
      }
      items := Items(list);
    }

    /**
     * The load callback: stores the result set, clamps a page number past the
     * last page back to the last page (requesting another reload), and rebuilds
     * the strip for the clamped page number.
     */
    method OnResults(resultTotalPages: int, resultItems: ItemList)
      modifies this`totalPages, this`items, this`pageNumber, this`reloads, this`pagination
      ensures totalPages == resultTotalPages && items == resultItems
      ensures old(pageNumber) > resultTotalPages ==>
        pageNumber == resultTotalPages && reloads == old(reloads) + 1
      ensures old(pageNumber) <= resultTotalPages ==>
        pageNumber == old(pageNumber) && reloads == old(reloads)
      ensures pageNumber <= totalPages
      ensures pagination == Pagination(totalPages, pageNumber)
    {
      totalPages := resultTotalPages;
      items := resultItems;
      if pageNumber > totalPages {
        pageNumber := totalPages;
        reloads := reloads + 1;
      }
      pagination := BuildPagination(totalPages, pageNumber);
    }
  }
}
