/**
 * The view-state engine both components share: the sort-column state
 * machine, the header icon, the name filter, the comparator and the sort.
 */
module ViewState {
  import opened People
  import opened Text

  // ---------------------------------------------------------------------------
  // Sort column and direction
  // ---------------------------------------------------------------------------

  /** The pair `sortBy` / `isReverse`; `None` is the unsorted initial state. */
  datatype SortState = SortState(sortBy: Option<Field>, isReverse: bool)

  /** A click on the header of column `target`. */
  function NextSort(s: SortState, target: Field): (r: SortState)
    ensures r.sortBy == Some(target)
  {
    if s.sortBy == Some(target) then
      s.(isReverse := !s.isReverse)
    else
      SortState(Some(target), false)
  }

  /** A click on the active column flips the direction only, and a second click restores it. */
  lemma ClickActiveColumnTwice(s: SortState, target: Field)
    requires s.sortBy == Some(target)
    ensures NextSort(s, target).sortBy == s.sortBy
    ensures NextSort(s, target).isReverse == !s.isReverse
    ensures NextSort(NextSort(s, target), target) == s
  {
  }

  /** A click on any other column selects it in ascending order, whatever the direction was. */
  lemma ClickOtherColumn(s: SortState, target: Field)
    requires s.sortBy != Some(target)
    ensures NextSort(s, target) == SortState(Some(target), false)
    ensures NextSort(NextSort(s, target), target) == SortState(Some(target), true)
  {
  }

  // ---------------------------------------------------------------------------
  // Header icon
  // ---------------------------------------------------------------------------

  /** The three header icons: neutral (unsorted), up (descending) and down (ascending). */
  datatype Icon = Neutral | Up | Down

  function SortIcon(s: SortState, title: Field): (icon: Icon)
    ensures icon == Neutral <==> s.sortBy != Some(title)
    ensures icon == Up <==> s.sortBy == Some(title) && s.isReverse
    ensures icon == Down <==> s.sortBy == Some(title) && !s.isReverse
  {
    if s.sortBy != Some(title) then Neutral
    else if s.isReverse then Up
    else Down
  }

  /**
   * After a click on `target` its icon cycles neutral -> down -> up -> down,
   * and every other column shows the neutral icon.
   */
  lemma IconAfterClick(s: SortState, target: Field, other: Field)
    requires other != target
    ensures SortIcon(NextSort(s, target), target) == (if SortIcon(s, target) == Down then Up else Down)
    ensures SortIcon(NextSort(s, target), other) == Neutral
  {
  }

  // ---------------------------------------------------------------------------
  // Name filter
  // ---------------------------------------------------------------------------

  /**
   * `user.name.toLowerCase().includes(searchQuery.toLowerCase().trim())`;
   * a blank query matches every name.
   */
  predicate Matches(u: User, searchQuery: string)
    ensures IsBlank(searchQuery) ==> Matches(u, searchQuery)
  {
    var needle := Trim(ToLower(searchQuery));
    if IsBlank(searchQuery) then
      ToLowerKeepsBlank(searchQuery);
      assert OccursAt(ToLower(u.name), needle, 0);
      Includes(ToLower(u.name), needle)
    else
      Includes(ToLower(u.name), needle)
  }

  /** `r` is obtained from `s` by deleting elements, keeping the order of the rest. */
  ghost predicate IsSubsequence<T>(r: seq<T>, s: seq<T>)
    decreases |s|
  {
    if r == [] then true
    else if s == [] then false
    else (r[0] == s[0] && IsSubsequence(r[1..], s[1..])) || IsSubsequence(r, s[1..])
  }

  /**
   * `Array.prototype.filter` on the contents of an array: an order-preserving
   * selection of `s` that holds every occurrence of each kept element and
   * nothing else.
   */
  function Filter<T(==,!new)>(s: seq<T>, keep: T -> bool): (r: seq<T>)
    ensures IsSubsequence(r, s)
    ensures forall x :: multiset(r)[x] == if keep(x) then multiset(s)[x] else 0
    ensures forall x :: x in r <==> x in s && keep(x)
    decreases |s|
  {
    if s == [] then []
    else
      var rest := Filter(s[1..], keep);
      assert s == [s[0]] + s[1..];
      if keep(s[0]) then
        assert ([s[0]] + rest)[1..] == rest;
        [s[0]] + rest
      else
        rest
  }

  /** Keeping every element returns the sequence unchanged. */
  lemma {:induction false} FilterKeepsAll<T(!new)>(s: seq<T>, keep: T -> bool)
    requires forall i :: 0 <= i < |s| ==> keep(s[i])
    ensures Filter(s, keep) == s
    decreases |s|
  {
    if s != [] {
      FilterKeepsAll(s[1..], keep);
    }
  }

  /** Two callbacks that agree on the elements of `s` select the same elements. */
  lemma {:induction false} FilterAgrees<T(!new)>(s: seq<T>, keep1: T -> bool, keep2: T -> bool)
    requires forall i :: 0 <= i < |s| ==> keep1(s[i]) == keep2(s[i])
    ensures Filter(s, keep1) == Filter(s, keep2)
    decreases |s|
  {
    if s != [] {
      FilterAgrees(s[1..], keep1, keep2);
    }
  }

  /** The callback `filterUsers` passes to `filter`. */
  function MatchesQuery(searchQuery: string): User -> bool {
    u => Matches(u, searchQuery)
  }

  /**
   * `filterUsers`: an order-preserving selection of `users` that holds every
   * occurrence of a matching user and nothing else.
   */
  function FilterUsers(users: seq<User>, searchQuery: string): (r: seq<User>)
    ensures IsSubsequence(r, users)
    ensures forall u :: multiset(r)[u] == if Matches(u, searchQuery) then multiset(users)[u] else 0
    ensures forall u :: u in r <==> u in users && Matches(u, searchQuery)
  {
    Filter(users, MatchesQuery(searchQuery))
  }

  /** An empty or whitespace-only query keeps every user, in order. */
  lemma BlankQueryKeepsAll(users: seq<User>, searchQuery: string)
    requires IsBlank(searchQuery)
    ensures FilterUsers(users, searchQuery) == users
  {
    FilterKeepsAll(users, MatchesQuery(searchQuery));
  }

  /** The filter ignores the case of the query: queries that fold alike select the same users. */
  lemma FilterCaseInsensitive(users: seq<User>, q1: string, q2: string)
    requires ToLower(q1) == ToLower(q2)
    ensures FilterUsers(users, q1) == FilterUsers(users, q2)
  {
    FilterAgrees(users, MatchesQuery(q1), MatchesQuery(q2));
  }

  // ---------------------------------------------------------------------------
  // Comparator
  // ---------------------------------------------------------------------------

  /** The year held in the numeric column `f`. */
  function Year(u: User, f: Field): int {
    if f == Born then u.born else u.died
  }

  /** Two strings go through `localeCompare`, two numbers are subtracted, anything else is a tie. */
  function CompareValues(aEl: Value, bEl: Value): (r: int)
    ensures aEl.Str? && bEl.Str? ==> -1 <= r <= 1 && (r == 0 <==> aEl.s == bEl.s)
    ensures aEl.Num? && bEl.Num? ==> (r < 0 <==> aEl.n < bEl.n) && (r == 0 <==> aEl.n == bEl.n)
    ensures aEl.Null? || bEl.Null? ==> r == 0
  {
    match (aEl, bEl)
    case (Str(x), Str(y)) => LocaleCompare(x, y)
    case (Num(x), Num(y)) => x - y
    case _ => 0
  }

  /**
   * The callback passed to `copy.sort`; reverse mode swaps the operands. On
   * `born`/`died` it is negative exactly when the first user's year comes
   * first in the chosen direction.
   */
  function Compare(sortBy: Field, isReverse: bool, a: User, b: User): (r: int)
    ensures IsNumeric(sortBy) ==>
      (r < 0 <==> if isReverse then Year(b, sortBy) < Year(a, sortBy) else Year(a, sortBy) < Year(b, sortBy))
  {
    var aEl := if isReverse then FieldValue(b, sortBy) else FieldValue(a, sortBy);
    var bEl := if isReverse then FieldValue(a, sortBy) else FieldValue(b, sortBy);
    CompareValues(aEl, bEl)
  }

  /** Reverse mode on (a, b) is forward mode on (b, a). */
  lemma ReverseSwapsOperands(sortBy: Field, a: User, b: User)
    ensures Compare(sortBy, true, a, b) == Compare(sortBy, false, b, a)
  {
  }

  /** A pair that is not two strings or two numbers (a `null` parent name) ties in both directions. */
  lemma MixedPairTies(sortBy: Field, a: User, b: User)
    requires FieldValue(a, sortBy).Null? || FieldValue(b, sortBy).Null?
    ensures Compare(sortBy, false, a, b) == 0 && Compare(sortBy, true, a, b) == 0
  {
  }

  /** Swapping the arguments negates the comparison, in either direction. */
  lemma CompareAntisymmetric(sortBy: Field, isReverse: bool, a: User, b: User)
    ensures Compare(sortBy, isReverse, b, a) == -Compare(sortBy, isReverse, a, b)
  {
    var x, y := FieldValue(a, sortBy), FieldValue(b, sortBy);
    if x.Str? && y.Str? {
      LocaleCompareAntisymmetric(x.s, y.s);
    }
  }

  /** On a column that is never `null` the comparator is transitive. */
  lemma CompareTransitive(sortBy: Field, isReverse: bool, a: User, b: User, c: User)
    requires IsNonNullable(sortBy)
    requires Compare(sortBy, isReverse, a, b) <= 0 && Compare(sortBy, isReverse, b, c) <= 0
    ensures Compare(sortBy, isReverse, a, c) <= 0
  {
    var x, y, z := FieldValue(a, sortBy), FieldValue(b, sortBy), FieldValue(c, sortBy);
    if !IsNumeric(sortBy) {
      if isReverse {
        LocaleCompareTransitive(z.s, y.s, x.s);
      } else {
        LocaleCompareTransitive(x.s, y.s, z.s);
      }
    }
  }

  /**
   * On a nullable column it is not: a `null` father (or mother) name ties
   * with both "A" and "B", which do not tie with each other.
   */
  lemma NullableColumnNotTransitive()
    ensures var a := User("x", "m", 0, 0, Some("B"), Some("B"), "a");
            var b := User("y", "m", 0, 0, None, None, "b");
            var c := User("z", "m", 0, 0, Some("A"), Some("A"), "c");
            && Compare(FatherName, false, a, b) == 0 && Compare(FatherName, false, b, c) == 0
            && Compare(FatherName, false, a, c) > 0
            && Compare(MotherName, false, a, b) == 0 && Compare(MotherName, false, b, c) == 0
            && Compare(MotherName, false, a, c) > 0
  {
  }

  // ---------------------------------------------------------------------------
  // Sort
  // ---------------------------------------------------------------------------

  /** Every pair is in comparator order. */
  ghost predicate SortedBy(s: seq<User>, sortBy: Field, isReverse: bool) {
    forall i, j :: 0 <= i < j < |s| ==> Compare(sortBy, isReverse, s[i], s[j]) <= 0
  }

  /** Every neighbouring pair is in comparator order. */
  ghost predicate AdjacentSorted(s: seq<User>, sortBy: Field, isReverse: bool) {
    forall k :: 0 < k < |s| ==> Compare(sortBy, isReverse, s[k - 1], s[k]) <= 0
  }

  lemma {:induction false} AdjacentSortedReaches(s: seq<User>, sortBy: Field, isReverse: bool, i: int, j: int)
    requires IsNonNullable(sortBy) && AdjacentSorted(s, sortBy, isReverse)
    requires 0 <= i < j < |s|
    ensures Compare(sortBy, isReverse, s[i], s[j]) <= 0
    decreases j - i
  {
    if i + 1 < j {
      AdjacentSortedReaches(s, sortBy, isReverse, i, j - 1);
      CompareTransitive(sortBy, isReverse, s[i], s[j - 1], s[j]);
    }
  }

  /** On a column that is never `null`, ordered neighbours mean an ordered sequence. */
  lemma AdjacentToSorted(s: seq<User>, sortBy: Field, isReverse: bool)
    requires IsNonNullable(sortBy) && AdjacentSorted(s, sortBy, isReverse)
    ensures SortedBy(s, sortBy, isReverse)
  {
    forall i, j | 0 <= i < j < |s|
      ensures Compare(sortBy, isReverse, s[i], s[j]) <= 0
    {
      AdjacentSortedReaches(s, sortBy, isReverse, i, j);
    }
  }

  /** Sorted by `born` or `died`: non-decreasing years forward, non-increasing in reverse. */
  lemma NumericColumnOrder(s: seq<User>, sortBy: Field, isReverse: bool)
    requires IsNumeric(sortBy) && SortedBy(s, sortBy, isReverse)
    ensures forall i, j :: 0 <= i < j < |s| ==>
      if isReverse then Year(s[j], sortBy) <= Year(s[i], sortBy) else Year(s[i], sortBy) <= Year(s[j], sortBy)
  {
    forall i, j | 0 <= i < j < |s|
      ensures if isReverse then Year(s[j], sortBy) <= Year(s[i], sortBy) else Year(s[i], sortBy) <= Year(s[j], sortBy)
    {
      assert Compare(sortBy, isReverse, s[i], s[j]) <= 0;
    }
  }

  function TextValue(u: User, f: Field): string {
    match f
    case Sex => u.sex
    case Slug => u.slug
    case _ => u.name
  }

  /** Sorted by `name`, `sex` or `slug`: ascending `localeCompare` order forward, descending in reverse. */
  lemma TextColumnOrder(s: seq<User>, sortBy: Field, isReverse: bool)
    requires IsNonNullable(sortBy) && !IsNumeric(sortBy) && SortedBy(s, sortBy, isReverse)
    ensures forall i, j :: 0 <= i < j < |s| ==>
      if isReverse then LocaleCompare(TextValue(s[j], sortBy), TextValue(s[i], sortBy)) <= 0
      else LocaleCompare(TextValue(s[i], sortBy), TextValue(s[j], sortBy)) <= 0
  {
    forall i, j | 0 <= i < j < |s|
      ensures if isReverse then LocaleCompare(TextValue(s[j], sortBy), TextValue(s[i], sortBy)) <= 0
              else LocaleCompare(TextValue(s[i], sortBy), TextValue(s[j], sortBy)) <= 0
    {
      assert Compare(sortBy, isReverse, s[i], s[j]) <= 0;
    }
  }

  /** A sort callback for which swapping the arguments negates the result. */
  ghost predicate Antisymmetric(cmp: (User, User) -> int) {
    forall x, y :: cmp(y, x) == -cmp(x, y)
  }

  /** Neighbours `a[k - 1]`, `a[k]` are in callback order for every `0 < k < n`. */
  ghost predicate NeighboursOrdered(a: seq<User>, n: int, cmp: (User, User) -> int)
    requires n <= |a|
  {
    forall k :: 0 < k < n ==> cmp(a[k - 1], a[k]) <= 0
  }

  /** Exchanges two neighbouring elements of `a`. */
  method Swap(a: array<User>, i: int, j: int)
    requires 0 <= i && j == i + 1 && j < a.Length
    modifies a
    ensures a[..] == old(a[..])[i := old(a[j])][j := old(a[i])]
    ensures multiset(a[..]) == old(multiset(a[..]))
  {
    a[i], a[j] := a[j], a[i];
  }

  /**
   * Halfway through inserting `s[..i + 1]`'s last element, which now sits at
   * `j`: all neighbours up to `i` are ordered except the two around `j`, the
   * elements on both sides of `j` are ordered, and so is `j` with its right
   * neighbour.
   */
  ghost predicate Inserting(s: seq<User>, i: int, j: int, cmp: (User, User) -> int)
    requires 0 <= j <= i < |s|
  {
    && (forall k :: 0 < k <= i && k != j && k != j + 1 ==> cmp(s[k - 1], s[k]) <= 0)
    && (0 < j < i ==> cmp(s[j - 1], s[j + 1]) <= 0)
    && (j < i ==> cmp(s[j], s[j + 1]) <= 0)
  }

  /** Moving the element one place left keeps the insertion invariant. */
  lemma InsertingStep(s: seq<User>, i: int, j: int, cmp: (User, User) -> int)
    requires Antisymmetric(cmp)
    requires 0 < j <= i < |s| && Inserting(s, i, j, cmp) && cmp(s[j - 1], s[j]) > 0
    ensures Inserting(s[j - 1 := s[j]][j := s[j - 1]], i, j - 1, cmp)
  {
    var t := s[j - 1 := s[j]][j := s[j - 1]];
    assert cmp(s[j], s[j - 1]) == -cmp(s[j - 1], s[j]);
    forall k | 0 < k <= i && k != j - 1 && k != j
      ensures cmp(t[k - 1], t[k]) <= 0
    {
      if k == j + 1 {
        assert t[k - 1] == s[j - 1] && t[k] == s[k];
      } else {
        assert t[k - 1] == s[k - 1] && t[k] == s[k];
      }
    }
  }

  /** When the element stops moving, the first `i + 1` neighbours are ordered. */
  lemma InsertingDone(s: seq<User>, i: int, j: int, cmp: (User, User) -> int)
    requires 0 <= j <= i < |s| && Inserting(s, i, j, cmp)
    requires j == 0 || cmp(s[j - 1], s[j]) <= 0
    ensures NeighboursOrdered(s, i + 1, cmp)
  {
    forall k | 0 < k < i + 1
      ensures cmp(s[k - 1], s[k]) <= 0
    {
      if k != j && k != j + 1 {
        assert cmp(s[k - 1], s[k]) <= 0;
      }
    }
  }

  /**
   * One insertion step: moves `a[i]` left past every neighbour that compares
   * greater, so the first `i + 1` elements end up with ordered neighbours.
   */
  method Insert(a: array<User>, i: int, cmp: (User, User) -> int)
    requires Antisymmetric(cmp)
    requires 0 <= i < a.Length && NeighboursOrdered(a[..], i, cmp)
    modifies a
    ensures multiset(a[..]) == old(multiset(a[..]))
    ensures NeighboursOrdered(a[..], i + 1, cmp)
    ensures a[i + 1..] == old(a[i + 1..])
  {
    var j := i;
    while j > 0 && cmp(a[j - 1], a[j]) > 0
      invariant 0 <= j <= i
      invariant multiset(a[..]) == old(multiset(a[..]))
      invariant a[i + 1..] == old(a[i + 1..])
      invariant Inserting(a[..], i, j, cmp)
    {
      InsertingStep(a[..], i, j, cmp);
      Swap(a, j - 1, j);
      j := j - 1;
    }
    InsertingDone(a[..], i, j, cmp);
  }

  /**
   * Sorts `a` in place with the callback `cmp`, by insertion. For an
   * antisymmetric callback neighbours end up in order; when the callback is
   * not transitive that says nothing about pairs further apart.
   */
  method InsertionSort(a: array<User>, cmp: (User, User) -> int)
    requires Antisymmetric(cmp)
    modifies a
    ensures multiset(a[..]) == old(multiset(a[..]))
    ensures NeighboursOrdered(a[..], a.Length, cmp)
  {
    var i := 0;
    while i < a.Length
      invariant 0 <= i <= a.Length
      invariant multiset(a[..]) == old(multiset(a[..]))
      invariant NeighboursOrdered(a[..], i, cmp)
    {
      Insert(a, i, cmp);
      i := i + 1;
    }
  }

  /**
   * `sortUsers`: without a sort column the very same array comes back;
   * otherwise a fresh copy holding the same users, in comparator order on the
   * columns that are never `null`. The input array is never written.
   */
  method SortUsers(users: array<User>, sortBy: Option<Field>, isReverse: bool) returns (r: array<User>)
    ensures sortBy.None? ==> r == users
    ensures sortBy.Some? ==> fresh(r)
    ensures multiset(r[..]) == multiset(users[..])
    ensures sortBy.Some? && IsNonNullable(sortBy.value) ==> SortedBy(r[..], sortBy.value, isReverse)
  {
    var copy := new User[users.Length];
    forall k | 0 <= k < users.Length {
      copy[k] := users[k];
    }
    assert copy[..] == users[..];
    if sortBy.None? {
      return users;
    }
    var f := sortBy.value;
    var cmp := (a: User, b: User) => Compare(f, isReverse, a, b);
    forall x, y ensures cmp(y, x) == -cmp(x, y) {
      CompareAntisymmetric(f, isReverse, x, y);
    }
    InsertionSort(copy, cmp);
    assert AdjacentSorted(copy[..], f, isReverse);
    if IsNonNullable(f) {
      AdjacentToSorted(copy[..], f, isReverse);
    }
    r := copy;
  }

  /** A fresh array holding `s`, as `Array.prototype.filter` returns. */
  method ArrayOf(s: seq<User>) returns (a: array<User>)
    ensures fresh(a) && a[..] == s
  {
    a := new User[|s|](k requires 0 <= k < |s| => s[k]);
  }

  /**
   * The render pipeline: filter the users by the query, then sort the result.
   * The users shown are exactly the matching ones; with no sort column they
   * keep their load order.
   */
  method PrepareUsers(users: array<User>, searchQuery: string, s: SortState) returns (prepared: array<User>)
    ensures multiset(prepared[..]) == multiset(FilterUsers(users[..], searchQuery))
    ensures s.sortBy.None? ==> prepared[..] == FilterUsers(users[..], searchQuery)
    ensures s.sortBy.Some? && IsNonNullable(s.sortBy.value) ==> SortedBy(prepared[..], s.sortBy.value, s.isReverse)
  {
    var filtered := ArrayOf(FilterUsers(users[..], searchQuery));
    prepared := SortUsers(filtered, s.sortBy, s.isReverse);
  }
}
