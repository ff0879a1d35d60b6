/** The users screen: the company options, the filtered and sorted list, the page of it that is
    shown, and the screen state that the handlers and effects update. */
module UsersView {
  import opened Wrappers
  import opened Types
  import opened Seqs
  import opened Text
  import UserUtils
  import UsersHooks
  import Pagination
  import AppStore

  const ItemsPerPage: nat := 10

  /** `EmailSortOrder`: `null`, `'asc'` or `'desc'`. */
  datatype SortOrder = Unsorted | Asc | Desc

  // ------------------------------------------------------------ company options

  predicate StrictlyAscending(s: seq<string>)
  {
    forall i, j :: 0 <= i < j < |s| ==> Less(s[i], s[j])
  }

  /** `x` added to an ascending list without duplicates, in its place. */
  function InsertName(x: string, s: seq<string>): (r: seq<string>)
    requires StrictlyAscending(s)
    ensures StrictlyAscending(r)
    ensures forall c :: c in r <==> c == x || c in s
  {
    if s == [] then [x]
    else if s[0] == x then s
    else if Less(s[0], x) then
      var t := InsertName(x, s[1..]);
      assert forall c :: c in t ==> Less(s[0], c) by {
        forall c | c in t ensures Less(s[0], c) {
          if c != x {
            var j :| 0 <= j < |s[1..]| && s[1..][j] == c;
            assert s[j + 1] == c;
          }
        }
      }
      assert forall j :: 0 < j < |[s[0]] + t| ==> ([s[0]] + t)[j] in t;
      [s[0]] + t
    else
      LessTotal(s[0], x);
      assert forall j :: 0 < j < |s| ==> Less(x, s[j]) by {
        forall j | 0 < j < |s| ensures Less(x, s[j]) { LessTransitive(x, s[0], s[j]); }
      }
      [x] + s
  }

  /** `Array.from(new Set(names)).sort()`: the distinct names in ascending order. */
  function SortedDistinct(names: seq<string>): (r: seq<string>)
    ensures StrictlyAscending(r)
    ensures forall c :: c in r <==> c in names
  {
    if names == [] then []
    else
      var r := InsertName(names[0], SortedDistinct(names[1..]));
      assert forall c :: c in names <==> c == names[0] || c in names[1..] by {
        assert names == [names[0]] + names[1..];
      }
      r
  }

  /** The company filter's options: every company name of the rows, once each, ascending. */
  function Companies(rows: seq<User>): (r: seq<string>)
    ensures StrictlyAscending(r)
    ensures forall i, j :: 0 <= i < j < |r| ==> r[i] != r[j]
    ensures forall c :: c in r <==> exists k :: 0 <= k < |rows| && rows[k].company.name == c
    ensures r == [] <==> rows == []
  {
    if rows == [] then []
    else
      var names := Map(rows, (u: User) => u.company.name);
      var r := SortedDistinct(names);
      assert rows[0].company.name in r;
      assert forall i, j :: 0 <= i < j < |r| ==> r[i] != r[j] by {
        forall i, j | 0 <= i < j < |r| ensures r[i] != r[j] {
          if r[i] == r[j] { LessIrreflexive(r[i]); }
        }
      }
      r
  }

  // ------------------------------------------------------------ filters

  /** The search: the lower-cased name contains the lower-cased term. */
  predicate NameMatches(u: User, term: string)
  {
    Includes(Lower(u.name), Lower(term))
  }

  /** What the two filters let through; an empty term and the company `'all'` let everything through. */
  predicate Matches(u: User, term: string, company: string)
  {
    (term == "" || NameMatches(u, term)) && (company == "all" || u.company.name == company)
  }

  /** Filtering twice is filtering once by both tests. */
  lemma {:induction false} FilterTwice(s: seq<User>, p: User -> bool, q: User -> bool)
    ensures Filter(Filter(s, p), q) == Filter(s, (u: User) => p(u) && q(u))
  {
    if s != [] {
      FilterTwice(s[1..], p, q);
      var inner := Filter(s[1..], p);
      if p(s[0]) { assert ([s[0]] + inner)[1..] == inner; }
    }
  }

  /** Filtering by the always-true test changes nothing. */
  lemma {:induction false} FilterAll(s: seq<User>, p: User -> bool)
    requires forall u :: p(u)
    ensures Filter(s, p) == s
  {
    if s != [] {
      FilterAll(s[1..], p);
      assert s == [s[0]] + s[1..];
    }
  }

  /** The search filter and then the company filter, each applied only when set: the records
      kept are exactly the rows that match both. */
  function Filtered(rows: seq<User>, term: string, company: string): (r: seq<User>)
    ensures |r| <= |rows|
    ensures forall u :: u in r <==> u in rows && Matches(u, term, company)
  {
    if rows == [] then []
    else
      var byName := if term != "" then Filter(rows, (u: User) => NameMatches(u, term)) else rows;
      FilterCounts(rows, (u: User) => NameMatches(u, term));
      FilterCounts(byName, (u: User) => u.company.name == company);
      if company != "all" then Filter(byName, (u: User) => u.company.name == company) else byName
  }

  /** The two filter stages are one filter by `Matches`. */
  lemma FilteredIsOneFilter(rows: seq<User>, term: string, company: string)
    ensures Filtered(rows, term, company) == Filter(rows, (u: User) => Matches(u, term, company))
  {
    var both := (u: User) => Matches(u, term, company);
    var byName := (u: User) => NameMatches(u, term);
    var byCompany := (u: User) => u.company.name == company;
    if rows == [] {
    } else if term != "" && company != "all" {
      FilterTwice(rows, byName, byCompany);
      FilterSameTest(rows, (u: User) => byName(u) && byCompany(u), both);
    } else if term != "" {
      FilterSameTest(rows, byName, both);
    } else if company != "all" {
      FilterSameTest(rows, byCompany, both);
    } else {
      FilterAll(rows, both);
    }
  }

  /** The filtered list keeps the order of the rows, holds only matching records, and holds
      every matching record as often as the rows do. */
  lemma FilteredProperties(rows: seq<User>, term: string, company: string)
    ensures IsSubsequence(Filtered(rows, term, company), rows)
    ensures forall u :: u in Filtered(rows, term, company) ==> Matches(u, term, company)
    ensures forall u :: Matches(u, term, company) ==>
      multiset(Filtered(rows, term, company))[u] == multiset(rows)[u]
  {
    FilteredIsOneFilter(rows, term, company);
    FilterIsSubsequence(rows, (u: User) => Matches(u, term, company));
    FilterCounts(rows, (u: User) => Matches(u, term, company));
  }

  /** Two tests that agree everywhere filter alike. */
  lemma {:induction false} FilterSameTest(s: seq<User>, p: User -> bool, q: User -> bool)
    requires forall u :: p(u) == q(u)
    ensures Filter(s, p) == Filter(s, q)
  {
    if s != [] { FilterSameTest(s[1..], p, q); }
  }

  // ------------------------------------------------------------ email sort

  /** `a` goes strictly before `b` under the comparator of the chosen direction. */
  predicate Before(a: User, b: User, desc: bool)
  {
    if desc then Less(b.email, a.email) else Less(a.email, b.email)
  }

  /** No later element goes strictly before an earlier one: non-decreasing emails when
      ascending, non-increasing when descending. */
  predicate SortedBy(s: seq<User>, desc: bool)
  {
    forall i, j :: 0 <= i < j < |s| ==> !Before(s[j], s[i], desc)
  }

  /** `x` placed in front of the first element it does not go after. */
  function Insert(x: User, s: seq<User>, desc: bool): seq<User>
  {
    if s == [] then [x]
    else if Before(s[0], x, desc) then [s[0]] + Insert(x, s[1..], desc)
    else [x] + s
  }

  /** `[...s].sort(cmp)` for the email comparator of the chosen direction, as a stable
      insertion sort. */
  function SortByEmail(s: seq<User>, desc: bool): (r: seq<User>)
    ensures multiset(r) == multiset(s)
    ensures SortedBy(r, desc)
  {
    if s == [] then []
    else
      var t := SortByEmail(s[1..], desc);
      InsertPermutes(s[0], t, desc);
      InsertSorted(s[0], t, desc);
      assert s == [s[0]] + s[1..];
      Insert(s[0], t, desc)
  }

  lemma {:induction false} InsertPermutes(x: User, s: seq<User>, desc: bool)
    ensures multiset(Insert(x, s, desc)) == multiset(s) + multiset{x}
  {
    if s != [] {
      assert s == [s[0]] + s[1..];
      if Before(s[0], x, desc) { InsertPermutes(x, s[1..], desc); }
    }
  }

  lemma {:induction false} InsertSorted(x: User, s: seq<User>, desc: bool)
    requires SortedBy(s, desc)
    ensures SortedBy(Insert(x, s, desc), desc)
  {
    if s == [] {
    } else if Before(s[0], x, desc) {
      InsertSorted(x, s[1..], desc);
      InsertPermutes(x, s[1..], desc);
      HeadStaysFirst(x, s, desc);
      PrependSorted(s[0], Insert(x, s[1..], desc), desc);
    } else {
      forall j | 0 < j < |s| ensures !Before(s[j], x, desc) {
        if desc { NotLessTransitive(s[j].email, s[0].email, x.email); }
        else { NotLessTransitive(x.email, s[0].email, s[j].email); }
      }
      PrependSorted(x, s, desc);
    }
  }

  /** Nothing that the insertion behind the head puts there goes before the head. */
  lemma HeadStaysFirst(x: User, s: seq<User>, desc: bool)
    requires s != [] && SortedBy(s, desc) && Before(s[0], x, desc)
    requires multiset(Insert(x, s[1..], desc)) == multiset(s[1..]) + multiset{x}
    ensures forall y :: y in Insert(x, s[1..], desc) ==> !Before(y, s[0], desc)
  {
    var t := Insert(x, s[1..], desc);
    forall y | y in t ensures !Before(y, s[0], desc) {
      assert y in multiset(t);
      if y == x {
        if desc { LessAsymmetric(x.email, s[0].email); } else { LessAsymmetric(s[0].email, x.email); }
      } else {
        assert y in multiset(s[1..]);
        var j :| 0 <= j < |s[1..]| && s[1..][j] == y;
        assert s[j + 1] == y;
      }
    }
  }

  /** A sorted list stays sorted with an element in front that nothing in it goes before. */
  lemma PrependSorted(x: User, t: seq<User>, desc: bool)
    requires SortedBy(t, desc)
    requires forall y :: y in t ==> !Before(y, x, desc)
    ensures SortedBy([x] + t, desc)
  {
    var r := [x] + t;
    forall i, j | 0 <= i < j < |r| ensures !Before(r[j], r[i], desc) {
      assert r[j] == t[j - 1];
      if i > 0 { assert r[i] == t[i - 1]; }
    }
  }

  /** The records of `s` with email `e`, in their order in `s`. */
  function WithEmail(s: seq<User>, e: string): seq<User>
  {
    Filter(s, (u: User) => u.email == e)
  }

  lemma {:induction false} InsertStable(x: User, s: seq<User>, desc: bool, e: string)
    ensures WithEmail(Insert(x, s, desc), e) == (if x.email == e then [x] else []) + WithEmail(s, e)
  {
    if s != [] {
      if Before(s[0], x, desc) {
        var t := Insert(x, s[1..], desc);
        InsertStable(x, s[1..], desc, e);
        assert ([s[0]] + t)[1..] == t;
        if s[0].email == x.email { LessIrreflexive(x.email); }
      } else {
        assert ([x] + s)[1..] == s;
      }
    }
  }

  /** Records with equal emails keep their relative order: the sort is stable. */
  lemma {:induction false} SortStable(s: seq<User>, desc: bool, e: string)
    ensures WithEmail(SortByEmail(s, desc), e) == WithEmail(s, e)
  {
    if s != [] {
      SortStable(s[1..], desc, e);
      InsertStable(s[0], SortByEmail(s[1..], desc), desc, e);
    }
  }

  /** `filteredAndSortedUsers`: the filtered rows, sorted by email when an order is chosen. */
  function FilteredAndSorted(rows: seq<User>, term: string, company: string, order: SortOrder): (r: seq<User>)
    ensures multiset(r) == multiset(Filtered(rows, term, company))
    ensures |r| == |Filtered(rows, term, company)|
    ensures order == Unsorted ==> r == Filtered(rows, term, company)
  {
    var filtered := Filtered(rows, term, company);
    assert |multiset(SortByEmail(filtered, false))| == |SortByEmail(filtered, false)|;
    assert |multiset(SortByEmail(filtered, true))| == |SortByEmail(filtered, true)|;
    match order
    case Unsorted => filtered
    case Asc => SortByEmail(filtered, false)
    case Desc => SortByEmail(filtered, true)
  }

  /** The list shown is a permutation of the filtered rows, in email order when one is chosen
      (records with equal emails in their filtered order), and the filtered rows themselves when not. */
  lemma FilteredAndSortedProperties(rows: seq<User>, term: string, company: string, order: SortOrder)
    ensures var r, filtered := FilteredAndSorted(rows, term, company, order), Filtered(rows, term, company);
      && multiset(r) == multiset(filtered)
      && (order == Unsorted ==> r == filtered)
      && (order == Asc ==> SortedBy(r, false))
      && (order == Desc ==> SortedBy(r, true))
      && forall e :: WithEmail(r, e) == WithEmail(filtered, e)
  {
    var filtered := Filtered(rows, term, company);
    if order != Unsorted {
      var desc := order == Desc;
      forall e ensures WithEmail(SortByEmail(filtered, desc), e) == WithEmail(filtered, e) {
        SortStable(filtered, desc, e);
      }
    }
  }

  // ------------------------------------------------------------ pages

  /** `filteredAndSortedUsers.slice((page - 1) * 10, (page - 1) * 10 + 10)`. */
  function PageOf(list: seq<User>, page: int): (r: seq<User>)
    ensures |r| <= ItemsPerPage
    ensures page >= 1 ==> var start := (page - 1) * ItemsPerPage;
      r == list[Min(start, |list|)..Min(start + ItemsPerPage, |list|)]
    ensures page >= 1 ==> forall k :: 0 <= k < |r| ==>
      (page - 1) * ItemsPerPage + k < |list| && r[k] == list[(page - 1) * ItemsPerPage + k]
    ensures page >= 1 && (page - 1) * ItemsPerPage <= |list| ==>
      |r| == Min(ItemsPerPage, |list| - (page - 1) * ItemsPerPage)
    ensures 1 <= page <= TotalPages(|list|) && list != [] ==> r != []
  {
    var start := (page - 1) * ItemsPerPage;
    if page >= 1 then
      Pagination.PageInRange(page, ItemsPerPage, |list|);
      Slice(list, start, start + ItemsPerPage)
    else Slice(list, start, start + ItemsPerPage)
  }

  /** `Math.max(1, Math.ceil(n / 10))`. */
  function TotalPages(n: nat): (r: nat)
    ensures r >= 1
    ensures n == 0 ==> r == 1
    ensures n > 0 ==> (r - 1) * ItemsPerPage < n <= r * ItemsPerPage
  {
    Max(1, Pagination.CeilDiv(n, ItemsPerPage))
  }

  /** Row `k` of the list is shown on page `k / 10 + 1`, at position `k % 10`, and that page exists. */
  lemma RowOnPage(list: seq<User>, k: nat)
    requires k < |list|
    ensures k / ItemsPerPage + 1 <= TotalPages(|list|)
    ensures PageOf(list, k / ItemsPerPage + 1)[k % ItemsPerPage] == list[k]
  {
    var page := k / ItemsPerPage + 1;
    var start := (page - 1) * ItemsPerPage;
    assert start + k % ItemsPerPage == k;
    Pagination.PageInRange(page, ItemsPerPage, |list|);
  }

  /** The bar's "showing X to Y" bounds name exactly the rows of the page shown. */
  lemma PageMatchesShownRange(list: seq<User>, page: int)
    requires |list| > 0 && 1 <= page <= TotalPages(|list|)
    ensures var start := Pagination.StartItem(page, ItemsPerPage, |list|);
      var end := Pagination.EndItem(page, ItemsPerPage, |list|);
      PageOf(list, page) == list[start - 1..end]
  {
    Pagination.ShownRange(page, ItemsPerPage, |list|);
  }

  /** The three-state sort toggle: unsorted, ascending, descending, unsorted again. */
  function NextSortOrder(order: SortOrder): (r: SortOrder)
    ensures r != order
  {
    match order
    case Unsorted => Asc
    case Asc => Desc
    case Desc => Unsorted
  }

  /** The toggle is a cycle of length three, and the first click from unsorted sorts ascending. */
  lemma SortToggleCycle(order: SortOrder)
    ensures NextSortOrder(order) != order && NextSortOrder(NextSortOrder(order)) != order
    ensures NextSortOrder(NextSortOrder(NextSortOrder(order))) == order
    ensures NextSortOrder(Unsorted) == Asc && NextSortOrder(Asc) == Desc && NextSortOrder(Desc) == Unsorted
  {
  }

  // ------------------------------------------------------------ page effects

  /** One commit of the screen's two page effects as the source writes them: a change of the
      search term, the company or the sort order queues `setCurrentPage(1)`; then, if the
      rendered page lies past the last page, the clamp queues `setCurrentPage(totalPages)`.
      Queued updates apply in order, so the last one wins. */
  function CommitAsWritten(page: int, filtersChanged: bool, totalPages: int): (r: int)
    ensures page >= 1 && totalPages >= 1 ==> 1 <= r <= totalPages
    ensures filtersChanged && page <= totalPages ==> r == 1
    ensures !filtersChanged && page <= totalPages ==> r == page
    ensures page > totalPages > 0 ==> r == totalPages
  {
    var queued := (if filtersChanged then [1] else [])
      + (if page > totalPages && totalPages > 0 then [totalPages] else []);
    if queued == [] then page else queued[|queued| - 1]
  }

  /** A filter change that shrinks the list below the current page lands on the last page,
      not on page 1: on page 5 of 5, a search leaving 3 pages shows page 3. */
  lemma ClampOverridesReset(page: int, totalPages: int)
    requires 1 < totalPages < page
    ensures CommitAsWritten(page, true, totalPages) == totalPages
    ensures CommitAsWritten(page, true, totalPages) != 1
    ensures CommitAsWritten(5, true, 3) == 3
  {
  }

  /** The page after one commit of the two effects, with the reset taking precedence. */
  function Commit(page: int, filtersChanged: bool, totalPages: nat): (r: int)
    requires totalPages >= 1
    ensures filtersChanged ==> r == 1
    ensures page >= 1 ==> 1 <= r <= totalPages
    ensures !filtersChanged && 1 <= page <= totalPages ==> r == page
  {
    if filtersChanged then 1 else if page > totalPages then totalPages else page
  }

  /** The correction changes nothing except in the case above. */
  lemma CommitAgreesOtherwise(page: int, filtersChanged: bool, totalPages: nat)
    requires totalPages >= 1
    requires !filtersChanged || page <= totalPages
    ensures Commit(page, filtersChanged, totalPages) == CommitAsWritten(page, filtersChanged, totalPages)
  {
  }

  // ------------------------------------------------------------ submit

  /** What submitting the dialog sets off. */
  datatype Action =
    | Refused(problem: UserUtils.Problem)
    | Update(change: UsersHooks.UpdatePayload)
    | Add(create: UsersHooks.CreatePayload)

  /** `handleSubmit`: nothing but the validator's alert when the form is invalid; otherwise an
      update of the edited record's id, or an add when no record is being edited. */
  function SubmitAction(editing: Option<User>, p: UsersHooks.CreatePayload): (a: Action)
    ensures var v := UserUtils.ValidateUser(p.name, p.email, p.phone);
      && (a.Refused? <==> v.Rejected?)
      && (a.Refused? ==> a.problem == v.problem)
      && (a.Update? <==> v.Accepted? && editing.Some?)
      && (a.Update? ==> a.change == UsersHooks.UpdatePayload(editing.value.id, p.name, p.email, p.phone, p.company))
      && (a.Add? <==> v.Accepted? && editing.None?)
      && (a.Add? ==> a.create == p)
  {
    match UserUtils.ValidateUser(p.name, p.email, p.phone)
    case Rejected(problem) => Refused(problem)
    case Accepted =>
      if editing.Some?
      then Update(UsersHooks.UpdatePayload(editing.value.id, p.name, p.email, p.phone, p.company))
      else Add(p)
  }

  // ------------------------------------------------------------ screen state

  /** The state of the users screen. `rows` is the cached list (`users ?? []`) and
      `searchTerm` the debounced search term. */
  class UsersScreen {
    var rows: seq<User>
    var searchTerm: string
    var selectedCompany: string
    var emailSortOrder: SortOrder
    var currentPage: int
    var dialogOpen: bool
    var editingUser: Option<User>
    var deleteDialogOpen: bool
    var userToDelete: Option<User>

    function Visible(): seq<User>
      reads this
    {
      FilteredAndSorted(rows, searchTerm, selectedCompany, emailSortOrder)
    }

    function PageCount(): nat
      reads this
    {
      TotalPages(|Visible()|)
    }

    /** `paginatedUsers`: all the records of the page, that is the next ten (or fewer at the
        end) consecutive records of the visible list after those of the earlier pages; never
        empty on a page that exists while anything is visible. */
    function Shown(): (r: seq<User>)
      reads this
      ensures |r| <= ItemsPerPage
      ensures currentPage >= 1 ==> forall k :: 0 <= k < |r| ==>
        (currentPage - 1) * ItemsPerPage + k < |Visible()| && r[k] == Visible()[(currentPage - 1) * ItemsPerPage + k]
      ensures 1 <= currentPage <= PageCount() && Visible() != [] ==> r != []
      ensures currentPage >= 1 && (currentPage - 1) * ItemsPerPage <= |Visible()| ==>
        |r| == Min(ItemsPerPage, |Visible()| - (currentPage - 1) * ItemsPerPage)
    {
      PageOf(Visible(), currentPage)
    }

    /** `companies`: every company name among the rows, once each, in ascending order. */
    function CompanyOptions(): (r: seq<string>)
      reads this
      ensures StrictlyAscending(r)
      ensures forall c :: c in r <==> exists k :: 0 <= k < |rows| && rows[k].company.name == c
    {
      Companies(rows)
    }

    /** The page shown always exists. */
    ghost predicate Valid()
      reads this
    {
      1 <= currentPage <= PageCount()
    }

    constructor (initialRows: seq<User>)
      ensures Valid()
      ensures rows == initialRows && searchTerm == "" && selectedCompany == "all"
      ensures emailSortOrder == Unsorted && currentPage == 1
      ensures !dialogOpen && editingUser == None && !deleteDialogOpen && userToDelete == None
    {
      rows, searchTerm, selectedCompany, emailSortOrder := initialRows, "", "all", Unsorted;
      currentPage, dialogOpen, editingUser := 1, false, None;
      deleteDialogOpen, userToDelete := false, None;
    }

    /** New data for the cached list; only the clamp effect runs. */
    method ReceiveRows(newRows: seq<User>)
      requires Valid()
      modifies this
      ensures Valid()
      ensures rows == newRows && currentPage == CommitAsWritten(old(currentPage), false, PageCount())
      ensures Visible() != [] ==> Shown() != []
      ensures forall c :: c in CompanyOptions() <==> exists k :: 0 <= k < |newRows| && newRows[k].company.name == c
      ensures searchTerm == old(searchTerm) && selectedCompany == old(selectedCompany)
      ensures emailSortOrder == old(emailSortOrder)
      ensures dialogOpen == old(dialogOpen) && editingUser == old(editingUser)
      ensures deleteDialogOpen == old(deleteDialogOpen) && userToDelete == old(userToDelete)
    {
      rows := newRows;
      currentPage := CommitAsWritten(currentPage, false, PageCount());
    }

    /** A new debounced search term. */
    method SetSearchTerm(term: string)
      requires Valid()
      modifies this
      ensures Valid()
      ensures searchTerm == term
      ensures currentPage == CommitAsWritten(old(currentPage), term != old(searchTerm), PageCount())
      ensures term != old(searchTerm) && old(currentPage) <= PageCount() ==> currentPage == 1
      ensures term != old(searchTerm) && old(currentPage) > PageCount() ==> currentPage == PageCount()
      ensures rows == old(rows) && selectedCompany == old(selectedCompany)
      ensures emailSortOrder == old(emailSortOrder)
      ensures dialogOpen == old(dialogOpen) && editingUser == old(editingUser)
      ensures deleteDialogOpen == old(deleteDialogOpen) && userToDelete == old(userToDelete)
    {
      var changed := term != searchTerm;
      searchTerm := term;
      currentPage := CommitAsWritten(currentPage, changed, PageCount());
    }

    /** A company picked in the filter, or `'all'` when the filter is cleared. */
    method SetSelectedCompany(company: string)
      requires Valid()
      modifies this
      ensures Valid()
      ensures selectedCompany == company
      ensures currentPage == CommitAsWritten(old(currentPage), company != old(selectedCompany), PageCount())
      ensures company != old(selectedCompany) && old(currentPage) <= PageCount() ==> currentPage == 1
      ensures company != old(selectedCompany) && old(currentPage) > PageCount() ==> currentPage == PageCount()
      ensures rows == old(rows) && searchTerm == old(searchTerm)
      ensures emailSortOrder == old(emailSortOrder)
      ensures dialogOpen == old(dialogOpen) && editingUser == old(editingUser)
      ensures deleteDialogOpen == old(deleteDialogOpen) && userToDelete == old(userToDelete)
    {
      var changed := company != selectedCompany;
      selectedCompany := company;
      currentPage := CommitAsWritten(currentPage, changed, PageCount());
    }

    /** `handleEmailSortToggle`; the order always changes, so the page resets. */
    method ToggleEmailSort()
      requires Valid()
      modifies this
      ensures Valid()
      ensures emailSortOrder == NextSortOrder(old(emailSortOrder)) && currentPage == 1
      ensures rows == old(rows) && searchTerm == old(searchTerm)
      ensures selectedCompany == old(selectedCompany)
      ensures dialogOpen == old(dialogOpen) && editingUser == old(editingUser)
      ensures deleteDialogOpen == old(deleteDialogOpen) && userToDelete == old(userToDelete)
    {
      emailSortOrder := NextSortOrder(emailSortOrder);
      currentPage := CommitAsWritten(currentPage, true, PageCount());
    }

    /** The Previous button: moves to its target unless the bar is hidden or the button disabled. */
    method PreviousPage()
      requires Valid()
      modifies this
      ensures Valid()
      ensures var enabled := Pagination.Renders(|Visible()|, PageCount())
        && !Pagination.PreviousDisabled(old(currentPage), PageCount());
        currentPage == if enabled then Pagination.PreviousTarget(old(currentPage)) else old(currentPage)
      ensures Visible() != [] ==> Shown() != []
      ensures rows == old(rows) && searchTerm == old(searchTerm)
      ensures selectedCompany == old(selectedCompany) && emailSortOrder == old(emailSortOrder)
      ensures dialogOpen == old(dialogOpen) && editingUser == old(editingUser)
      ensures deleteDialogOpen == old(deleteDialogOpen) && userToDelete == old(userToDelete)
    {
      if Pagination.Renders(|Visible()|, PageCount()) && !Pagination.PreviousDisabled(currentPage, PageCount()) {
        currentPage := CommitAsWritten(Pagination.PreviousTarget(currentPage), false, PageCount());
      }
    }

    /** The Next button: moves to its target unless the bar is hidden or the button disabled. */
    method NextPage()
      requires Valid()
      modifies this
      ensures Valid()
      ensures var enabled := Pagination.Renders(|Visible()|, PageCount())
        && !Pagination.NextDisabled(old(currentPage), PageCount());
        currentPage == if enabled then Pagination.NextTarget(old(currentPage), PageCount()) else old(currentPage)
      ensures Visible() != [] ==> Shown() != []
      ensures rows == old(rows) && searchTerm == old(searchTerm)
      ensures selectedCompany == old(selectedCompany) && emailSortOrder == old(emailSortOrder)
      ensures dialogOpen == old(dialogOpen) && editingUser == old(editingUser)
      ensures deleteDialogOpen == old(deleteDialogOpen) && userToDelete == old(userToDelete)
    {
      if Pagination.Renders(|Visible()|, PageCount()) && !Pagination.NextDisabled(currentPage, PageCount()) {
        currentPage := CommitAsWritten(Pagination.NextTarget(currentPage, PageCount()), false, PageCount());
      }
    }

    /** `handleEdit`: open the dialog on a record. */
    method HandleEdit(user: User)
      modifies this
      ensures editingUser == Some(user) && dialogOpen
      ensures rows == old(rows) && searchTerm == old(searchTerm) && selectedCompany == old(selectedCompany)
      ensures emailSortOrder == old(emailSortOrder) && currentPage == old(currentPage)
      ensures deleteDialogOpen == old(deleteDialogOpen) && userToDelete == old(userToDelete)
    {
      editingUser, dialogOpen := Some(user), true;
    }

    /** `handleAdd`: open the dialog on an empty form. */
    method HandleAdd()
      modifies this
      ensures editingUser == None && dialogOpen
      ensures rows == old(rows) && searchTerm == old(searchTerm) && selectedCompany == old(selectedCompany)
      ensures emailSortOrder == old(emailSortOrder) && currentPage == old(currentPage)
      ensures deleteDialogOpen == old(deleteDialogOpen) && userToDelete == old(userToDelete)
    {
      editingUser, dialogOpen := None, true;
    }

    /** `handleSubmit`, which itself changes no state. */
    method HandleSubmit(p: UsersHooks.CreatePayload) returns (a: Action)
      ensures a == SubmitAction(editingUser, p)
    {
      a := SubmitAction(editingUser, p);
    }

    /** The success callbacks `handleSubmit` passes along: log the change and close the
        dialog; an edit also forgets the record it was editing. */
    method SubmitSucceeded(a: Action, store: AppStore.Store, now: int)
      requires !a.Refused?
      modifies this, store
      ensures store.Valid()
      ensures a.Update? ==> store.activityLog == AppStore.PushLog(old(store.activityLog),
        AppStore.LogEntry(AppStore.Edit, AppStore.LogMessage(AppStore.Edit, a.change.name), now))
      ensures a.Add? ==> store.activityLog == AppStore.PushLog(old(store.activityLog),
        AppStore.LogEntry(AppStore.Add, AppStore.LogMessage(AppStore.Add, a.create.name), now))
      ensures store.currentUser == old(store.currentUser) && store.darkMode == old(store.darkMode)
      ensures !dialogOpen && editingUser == if a.Update? then None else old(editingUser)
      ensures rows == old(rows) && searchTerm == old(searchTerm) && selectedCompany == old(selectedCompany)
      ensures emailSortOrder == old(emailSortOrder) && currentPage == old(currentPage)
      ensures deleteDialogOpen == old(deleteDialogOpen) && userToDelete == old(userToDelete)
    {
      if a.Update? {
        store.AddLog(AppStore.Edit, AppStore.LogMessage(AppStore.Edit, a.change.name), now);
        dialogOpen, editingUser := false, None;
      } else {
        store.AddLog(AppStore.Add, AppStore.LogMessage(AppStore.Add, a.create.name), now);
        dialogOpen := false;
      }
    }

    /** `handleDeleteClick`: ask for confirmation about a record. */
    method HandleDeleteClick(user: User)
      modifies this
      ensures userToDelete == Some(user) && deleteDialogOpen
      ensures rows == old(rows) && searchTerm == old(searchTerm) && selectedCompany == old(selectedCompany)
      ensures emailSortOrder == old(emailSortOrder) && currentPage == old(currentPage)
      ensures dialogOpen == old(dialogOpen) && editingUser == old(editingUser)
    {
      userToDelete, deleteDialogOpen := Some(user), true;
    }

    /** `handleDeleteConfirm`: the id to delete, if a record is awaiting confirmation. */
    method HandleDeleteConfirm() returns (id: Option<int>)
      ensures id.Some? <==> userToDelete.Some?
      ensures id.Some? ==> id.value == userToDelete.value.id
    {
      if userToDelete.Some? {
        id := Some(userToDelete.value.id);
      } else {
        id := None;
      }
    }

    /** The delete callbacks: on success the deletion is logged under the name captured at
        confirmation; either way the confirmation dialog closes and forgets the record. */
    method DeleteSettled(succeeded: bool, userName: string, store: AppStore.Store, now: int)
      modifies this, store
      ensures succeeded ==> store.Valid()
      ensures store.activityLog == if succeeded
        then AppStore.PushLog(old(store.activityLog),
          AppStore.LogEntry(AppStore.Delete, AppStore.LogMessage(AppStore.Delete, userName), now))
        else old(store.activityLog)
      ensures store.currentUser == old(store.currentUser) && store.darkMode == old(store.darkMode)
      ensures !deleteDialogOpen && userToDelete == None
      ensures rows == old(rows) && searchTerm == old(searchTerm) && selectedCompany == old(selectedCompany)
      ensures emailSortOrder == old(emailSortOrder) && currentPage == old(currentPage)
      ensures dialogOpen == old(dialogOpen) && editingUser == old(editingUser)
    {
      if succeeded {
        store.AddLog(AppStore.Delete, AppStore.LogMessage(AppStore.Delete, userName), now);
      }
      deleteDialogOpen, userToDelete := false, None;
    }
  }
}
