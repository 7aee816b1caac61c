/** The key-handling loop of the package browser (`main` in src/main.cpp),
    lifted into an object whose fields are the loop's variables and whose
    `HandleKey` is one turn of the loop. Rendering is left out; the call to
    `fillDetails` is reported as the global index it would enrich. */
module Browser {
  import opened PackageModel
  import opened Ordering
  import opened Visible

  /** The keys the loop distinguishes. `Printable(c)` stands for a code in
      32..126, `Unbound` for every code no branch of the loop tests. */
  datatype Key = Printable(c: char) | Up | Down | Backspace | Enter | Escape | Unbound

  /** The ncurses codes `getch` returns for the special keys. */
  const KEY_DOWN: int := 258
  const KEY_UP: int := 259
  const KEY_BACKSPACE: int := 263
  const KEY_ENTER: int := 343

  /** How the loop reads a `getch` code: 27 is escape, three codes are
      backspace, two are enter, and 32..126 are typed characters. */
  function Classify(code: int): (key: Key)
    ensures key == Escape <==> code == 27
    ensures key == Backspace <==> code in {KEY_BACKSPACE, 127, 8}
    ensures key == Enter <==> code in {10, KEY_ENTER}
    ensures key == Up <==> code == KEY_UP
    ensures key == Down <==> code == KEY_DOWN
    ensures key.Printable? <==> 32 <= code <= 126
    ensures key.Printable? ==> key.c as int == code
  {
    if code == 27 then Escape
    else if code == KEY_BACKSPACE || code == 127 || code == 8 then Backspace
    else if code == 10 || code == KEY_ENTER then Enter
    else if code == KEY_UP then Up
    else if code == KEY_DOWN then Down
    else if 32 <= code <= 126 then Printable(code as char)
    else Unbound
  }

  /** The `f` key: All, then Explicit, then AUR, then All again. */
  function NextFilter(f: FilterMode): (next: FilterMode)
    ensures next != f
    ensures next == All <==> f == AurOnly
  {
    match f
    case All => ExplicitOnly
    case ExplicitOnly => AurOnly
    case AurOnly => All
  }

  /** The `o` key: name ascending, name descending, explicit first, AUR
      first, then name ascending again. */
  function NextSort(s: SortMode): (next: SortMode)
    ensures next != s
    ensures next == NameAsc <==> s == AurFirst
  {
    match s
    case NameAsc => NameDesc
    case NameDesc => ExplicitFirst
    case ExplicitFirst => AurFirst
    case AurFirst => NameAsc
  }

  /** Pressing `f` cycles with period exactly 3. */
  lemma FilterCycle(f: FilterMode)
    ensures NextFilter(f) != f && NextFilter(NextFilter(f)) != f
    ensures NextFilter(NextFilter(NextFilter(f))) == f
  {
  }

  /** Pressing `o` cycles with period exactly 4. */
  lemma SortCycle(s: SortMode)
    ensures NextSort(s) != s && NextSort(NextSort(s)) != s && NextSort(NextSort(NextSort(s))) != s
    ensures NextSort(NextSort(NextSort(NextSort(s)))) == s
  {
  }

  /** All the loop's variables at one moment. */
  datatype ViewState = ViewState(
    query: string,
    searchMode: bool,
    showHelp: bool,
    filterMode: FilterMode,
    sortMode: SortMode,
    visible: seq<int>,
    selected: int,
    scroll: int,
    current: int)

  class Session {
    const packages: seq<Package>
    /** Rows of the package pane (`list_height`). */
    const listHeight: int
    var query: string
    var searchMode: bool
    var showHelp: bool
    var filterMode: FilterMode
    var sortMode: SortMode
    var visible: seq<int>
    /** Position of the selection in `visible`. */
    var selected: int
    /** First position of `visible` shown in the pane. */
    var scroll: int
    /** Global index of the selected package, or -1 when none. */
    var current: int

    function Snapshot(): ViewState
      reads this
    {
      ViewState(query, searchMode, showHelp, filterMode, sortMode, visible, selected, scroll, current)
    }

    /** The visible list is the one the current query and modes call for;
        the selection lies in it and, when the pane has at least one row,
        inside the scrolled window; `current` names the selected package. */
    ghost predicate Valid()
      reads this
    {
      && IsVisibleOrder(packages, query, filterMode, sortMode, visible)
      && (visible == [] ==> selected == 0 && scroll == 0 && current == -1)
      && (visible != [] ==>
            && 0 <= scroll && 0 <= selected < |visible|
            && (listHeight >= 1 ==> scroll <= selected < scroll + listHeight)
            && current == visible[selected])
    }

    /** Selection and scroll back at the top after a recomputation, and the
        new top entry (if any) enriched. */
    ghost predicate Refreshed(enriched: int)
      reads this
    {
      && selected == 0 && scroll == 0
      && current == (if visible == [] then -1 else visible[0])
      && enriched == current
    }

    /** Up or Down: the selection moves one step within the list, the window
        moves by the least amount that keeps it in view, and the newly
        selected package is enriched. On an empty list nothing happens. */
    twostate predicate Moved(down: bool, enriched: int)
      reads this
    {
      && query == old(query) && searchMode == old(searchMode) && showHelp == old(showHelp)
      && filterMode == old(filterMode) && sortMode == old(sortMode) && visible == old(visible)
      && if visible == [] then
           selected == old(selected) && scroll == old(scroll) && current == old(current) && enriched == -1
         else
           && selected == (if down then (if old(selected) + 1 < |visible| then old(selected) + 1 else old(selected))
                           else (if old(selected) > 0 then old(selected) - 1 else old(selected)))
           && (if selected < old(scroll) then scroll == selected
               else if selected >= old(scroll) + listHeight then scroll + listHeight - 1 == selected
               else scroll == old(scroll))
           && 0 <= selected < |visible| && current == visible[selected] && enriched == current
    }

    /** The set-up before the loop: empty query, no search, no help, filter
        All, name ascending, selection at the top; `current` is the package
        the set-up enriches (none when the list is empty). */
    constructor (packages: seq<Package>, listHeight: int)
      ensures Valid()
      ensures this.packages == packages && this.listHeight == listHeight
      ensures query == [] && !searchMode && !showHelp
      ensures filterMode == All && sortMode == NameAsc
      ensures selected == 0 && scroll == 0
      ensures current == (if visible == [] then -1 else visible[0])
    {
      this.packages := packages;
      this.listHeight := listHeight;
      query := [];
      searchMode := false;
      showHelp := false;
      filterMode := All;
      sortMode := NameAsc;
      var v := RecomputeVisible(packages, [], All, NameAsc);
      visible := v;
      selected := 0;
      scroll := 0;
      current := if v == [] then -1 else v[0];
    }

    /** The block run after the query or a mode changed: recompute the list,
        reset selection and scroll, enrich the new top entry. */
    method Refresh() returns (enriched: int)
      modifies this
      ensures Valid() && Refreshed(enriched)
      ensures query == old(query) && searchMode == old(searchMode) && showHelp == old(showHelp)
      ensures filterMode == old(filterMode) && sortMode == old(sortMode)
    {
      visible := RecomputeVisible(packages, query, filterMode, sortMode);
      selected := 0;
      scroll := 0;
      if visible != [] {
        current := visible[selected];
      } else {
        current := -1;
      }
      enriched := current;
    }

    /** The Up/Down branch, shared by search mode and normal mode. */
    method Move(down: bool) returns (enriched: int)
      requires Valid()
      modifies this
      ensures Valid() && Moved(down, enriched)
    {
      enriched := -1;
      if visible != [] {
        if !down && selected > 0 {
          selected := selected - 1;
        } else if down && selected + 1 < |visible| {
          selected := selected + 1;
        }
        if selected < scroll {
          scroll := selected;
        } else if selected >= scroll + listHeight {
          scroll := selected - listHeight + 1;
        }
        current := visible[selected];
        enriched := current;
      }
    }

    /** A key typed into the search prompt. */
    twostate predicate SearchStep(key: Key, enriched: int)
      reads this
    {
      match key
      case Escape =>
        !searchMode && query == [] && showHelp == old(showHelp)
        && filterMode == old(filterMode) && sortMode == old(sortMode) && Refreshed(enriched)
      case Backspace =>
        if old(query) == [] then Snapshot() == old(Snapshot()) && enriched == -1
        else query == old(query)[..|old(query)| - 1] && searchMode == old(searchMode) && showHelp == old(showHelp)
             && filterMode == old(filterMode) && sortMode == old(sortMode) && Refreshed(enriched)
      case Enter => Snapshot() == old(Snapshot()).(searchMode := false) && enriched == -1
      case Up => Moved(false, enriched)
      case Down => Moved(true, enriched)
      case Printable(c) =>
        if 32 <= c as int <= 126 then
          query == old(query) + [c] && searchMode == old(searchMode) && showHelp == old(showHelp)
          && filterMode == old(filterMode) && sortMode == old(sortMode) && Refreshed(enriched)
        else Snapshot() == old(Snapshot()) && enriched == -1
      case Unbound => Snapshot() == old(Snapshot()) && enriched == -1
    }

    /** A key pressed in normal mode. */
    twostate predicate NormalStep(key: Key, enriched: int)
      reads this
    {
      match key
      case Printable('/') => Snapshot() == old(Snapshot()).(searchMode := true) && enriched == -1
      case Printable('h') => Snapshot() == old(Snapshot()).(showHelp := true) && enriched == -1
      case Printable('?') => Snapshot() == old(Snapshot()).(showHelp := true) && enriched == -1
      case Printable('f') =>
        filterMode == NextFilter(old(filterMode)) && sortMode == old(sortMode) && query == old(query)
        && searchMode == old(searchMode) && showHelp == old(showHelp) && Refreshed(enriched)
      case Printable('o') =>
        sortMode == NextSort(old(sortMode)) && filterMode == old(filterMode) && query == old(query)
        && searchMode == old(searchMode) && showHelp == old(showHelp) && Refreshed(enriched)
      case Up => Moved(false, enriched)
      case Down => Moved(true, enriched)
      case _ => Snapshot() == old(Snapshot()) && enriched == -1
    }

    /** The search-mode branch of the loop: Escape leaves and clears the
        query, Backspace drops its last character, Enter leaves keeping it,
        Up/Down move, a printable character is appended. */
    method SearchKey(key: Key) returns (enriched: int)
      requires Valid()
      modifies this
      ensures Valid() && SearchStep(key, enriched)
    {
      enriched := -1;
      match key {
        case Escape =>
          searchMode := false;
          query := [];
          enriched := Refresh();
        case Backspace =>
          if query != [] {
            query := query[..|query| - 1];
            enriched := Refresh();
          }
        case Enter =>
          searchMode := false;
        case Up =>
          enriched := Move(false);
        case Down =>
          enriched := Move(true);
        case Printable(c) =>
          if 32 <= c as int <= 126 {
            query := query + [c];
            enriched := Refresh();
          }
        case Unbound =>
      }
    }

    /** The normal-mode branch: '/' opens the prompt, 'h' or '?' the help,
        'f' and 'o' cycle the filter and the order, Up/Down move. */
    method NormalKey(key: Key) returns (enriched: int)
      requires Valid()
      modifies this
      ensures Valid() && NormalStep(key, enriched)
    {
      enriched := -1;
      match key {
        case Printable('/') =>
          searchMode := true;
        case Printable('h') =>
          showHelp := true;
        case Printable('?') =>
          showHelp := true;
        case Printable('f') =>
          filterMode := NextFilter(filterMode);
          enriched := Refresh();
        case Printable('o') =>
          sortMode := NextSort(sortMode);
          enriched := Refresh();
        case Up =>
          enriched := Move(false);
        case Down =>
          enriched := Move(true);
        case _ =>
      }
    }

    /** One turn of the loop on `key`. `quit` is the loop's exit on 'q',
        which is tested before anything else, so 'q' never reaches the
        query. `enriched` is the global index handed to `fillDetails`, or -1
        when the turn calls it on nothing. */
    method HandleKey(key: Key) returns (quit: bool, enriched: int)
      requires Valid()
      modifies this
      ensures Valid()
      ensures quit <==> key == Printable('q')
      ensures enriched == -1 || (0 <= enriched < |packages| && enriched == current)
      ensures quit ==> Snapshot() == old(Snapshot()) && enriched == -1
      // help overlay: only h or ? (closing it) has an effect
      ensures !quit && old(showHelp) ==>
        && Snapshot() == old(Snapshot()).(showHelp := !(key == Printable('h') || key == Printable('?')))
        && enriched == -1
      ensures !quit && !old(showHelp) && old(searchMode) ==> SearchStep(key, enriched)
      ensures !quit && !old(showHelp) && !old(searchMode) ==> NormalStep(key, enriched)
    {
      quit := key == Printable('q');
      enriched := -1;
      if quit {
        return;
      }
      if showHelp {
        if key == Printable('h') || key == Printable('?') {
          showHelp := false;
        }
      } else if searchMode {
        enriched := SearchKey(key);
      } else {
        enriched := NormalKey(key);
      }
    }
  }

  /** Three listed packages, a pane of two rows, Down pressed twice: the
      third entry is selected and the window has scrolled by one. */
  method DownTwiceScrollsByOne(a: Package, b: Package, c: Package) returns (selected: int, scroll: int)
    ensures selected == 2 && scroll == 1
  {
    var s := new Session([a, b, c], 2);
    VisibleWithoutNarrowing([a, b, c], s.sortMode, s.visible);
    var quit, enriched := s.HandleKey(Down);
    quit, enriched := s.HandleKey(Down);
    selected, scroll := s.selected, s.scroll;
  }
}
