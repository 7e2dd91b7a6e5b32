/** The function component `AppFunction`: its four `useState` hooks and the handlers that set them. */
module FunctionComponent {
  import opened People
  import opened ViewState

  class AppFunction {
    var users: array<User>
    var searchQuery: string
    var sortBy: Option<Field>
    var isReverse: bool

    /** The sort column and direction. */
    function Sorting(): (s: SortState)
      reads this
      ensures s.sortBy == sortBy && s.isReverse == isReverse
    {
      SortState(sortBy, isReverse)
    }

    /** The initial state: no users yet, an empty query, unsorted, ascending. */
    constructor ()
      ensures users.Length == 0 && searchQuery == []
      ensures sortBy == None && !isReverse
    {
      users := new User[0];
      searchQuery := "";
      sortBy := None;
      isReverse := false;
    }

    /** The delayed load replaces the user list and nothing else. */
    method LoadUsers(loaded: array<User>)
      modifies this
      ensures users == loaded
      ensures searchQuery == old(searchQuery) && Sorting() == old(Sorting())
    {
      users := loaded;
    }

    /** Typing in the search box stores the text as typed; trimming waits for the filter. */
    method SetSearchQuery(text: string)
      modifies this
      ensures searchQuery == text
      ensures users == old(users) && Sorting() == old(Sorting())
    {
      searchQuery := text;
    }

    /** A click on a column header; the flip goes through a functional state update. */
    method ChangeSortHandler(targetSortBy: Field)
      modifies this
      ensures Sorting() == NextSort(old(Sorting()), targetSortBy)
      ensures old(sortBy) == Some(targetSortBy) ==> sortBy == old(sortBy) && isReverse == !old(isReverse)
      ensures old(sortBy) != Some(targetSortBy) ==> sortBy == Some(targetSortBy) && !isReverse
      ensures users == old(users) && searchQuery == old(searchQuery)
    {
      if sortBy == Some(targetSortBy) {
        var toggle := (currentRev: bool) => !currentRev;
        isReverse := toggle(isReverse);
        return;
      }
      isReverse := false;
      sortBy := Some(targetSortBy);
    }

    /** The icon next to a header: neutral unless it is the sort column, then up when reversed, else down. */
    function GetSortIcon(title: Field): (icon: Icon)
      reads this
      ensures icon == Neutral <==> sortBy != Some(title)
      ensures icon == Up <==> sortBy == Some(title) && isReverse
      ensures icon == Down <==> sortBy == Some(title) && !isReverse
    {
      SortIcon(Sorting(), title)
    }

    /** The rows `render` shows: the users filtered by the query, then sorted. */
    method PreparedUsers() returns (prepared: array<User>)
      ensures multiset(prepared[..]) == multiset(FilterUsers(users[..], searchQuery))
      ensures sortBy.None? ==> prepared[..] == FilterUsers(users[..], searchQuery)
      ensures sortBy.Some? && IsNonNullable(sortBy.value) ==> SortedBy(prepared[..], sortBy.value, isReverse)
    {
      prepared := PrepareUsers(users, searchQuery, Sorting());
    }
  }
}
