/**
 * The note and auth-key tables of a project page: the header lookup, and the
 * `filtered…` pipeline (search, active filter, newest first). Both tables share
 * the row shape and the pipeline; only the header fallback differs.
 */
module Listing {
  import opened Wrappers
  import opened Text
  import opened Seqs

  /** The `project` object embedded in a fetched row: its id and name. */
  datatype ProjectRef = ProjectRef(id: string, name: string)

  /** A fetched note or auth key; `createdAt` is its `getTime()` in milliseconds. */
  datatype Entry = Entry(content: string, createdBy: string, isActive: bool, createdAt: int,
                         project: Option<ProjectRef>)

  /** The `activeFilter` state: `'all'` or `'active'`. */
  datatype ActiveFilter = All | ActiveOnly

  const NotesFallback: string := "All Notes"
  const AuthKeysFallback: string := "All Auth Keys"

  /** Whether a row's project has the page's `projectId` (`row.project?.id === projectId`). */
  predicate InProject(p: Option<ProjectRef>, projectId: string) {
    p.Some? && p.value.id == projectId
  }

  /**
   * `data.find(row => row.project?.id === projectId)`, then that row's project
   * name, or `fallback` when no row matches (or nothing has loaded).
   */
  function HeaderName(projects: seq<Option<ProjectRef>>, projectId: string, fallback: string): (h: string)
    ensures (forall i :: 0 <= i < |projects| ==> !InProject(projects[i], projectId)) ==> h == fallback
    ensures forall i :: 0 <= i < |projects| && InProject(projects[i], projectId)
                        && (forall j :: 0 <= j < i ==> !InProject(projects[j], projectId))
                        ==> h == projects[i].value.name
  {
    if |projects| == 0 then fallback
    else if InProject(projects[0], projectId) then projects[0].value.name
    else
      var h := HeaderName(projects[1..], projectId, fallback);
      assert forall i :: 1 <= i < |projects| ==> projects[i] == projects[1..][i - 1];
      h
  }

  function Projects(es: seq<Entry>): (ps: seq<Option<ProjectRef>>)
    ensures |ps| == |es| && forall i :: 0 <= i < |es| ==> ps[i] == es[i].project
  {
    seq(|es|, i requires 0 <= i < |es| => es[i].project)
  }

  /** The note table's header: the matching project's name, else `All Notes`. */
  function NoteHeader(fetched: Option<seq<Entry>>, projectId: string): string {
    HeaderName(Projects(fetched.GetOr([])), projectId, NotesFallback)
  }

  /** The auth-key table's header: the matching project's name, else `All Auth Keys`. */
  function AuthKeyHeader(fetched: Option<seq<Entry>>, projectId: string): string {
    HeaderName(Projects(fetched.GetOr([])), projectId, AuthKeysFallback)
  }

  /**
   * Both headers name the first row whose project matches, and differ only in
   * their fallback when none does.
   */
  lemma HeadersAgree(fetched: Option<seq<Entry>>, projectId: string)
    ensures var es := fetched.GetOr([]);
            && ((exists i :: 0 <= i < |es| && InProject(es[i].project, projectId)) ==>
                  NoteHeader(fetched, projectId) == AuthKeyHeader(fetched, projectId))
            && ((forall i :: 0 <= i < |es| ==> !InProject(es[i].project, projectId)) ==>
                  NoteHeader(fetched, projectId) == NotesFallback
                  && AuthKeyHeader(fetched, projectId) == AuthKeysFallback)
  {
    var es := fetched.GetOr([]);
    var ps := Projects(es);
    if exists i :: 0 <= i < |es| && InProject(es[i].project, projectId) {
      var k := FirstIn(ps, projectId);
      assert NoteHeader(fetched, projectId) == ps[k].value.name;
    }
  }

  /** The index of the first matching row, when some row matches. */
  function FirstIn(ps: seq<Option<ProjectRef>>, projectId: string): (k: nat)
    requires exists i :: 0 <= i < |ps| && InProject(ps[i], projectId)
    ensures k < |ps| && InProject(ps[k], projectId)
    ensures forall j :: 0 <= j < k ==> !InProject(ps[j], projectId)
  {
    if InProject(ps[0], projectId) then 0
    else
      assert exists i :: 0 <= i < |ps[1..]| && InProject(ps[1..][i], projectId) by {
        var i :| 0 <= i < |ps| && InProject(ps[i], projectId);
        assert ps[1..][i - 1] == ps[i];
      }
      1 + FirstIn(ps[1..], projectId)
  }

  // ---------------------------------------------------------------- filtering

  /** `content` or `createdBy` contains the search text, ignoring case. */
  predicate SearchMatches(e: Entry, search: string) {
    MatchesIgnoringCase(e.content, search) || MatchesIgnoringCase(e.createdBy, search)
  }

  /** `if (search)`: any non-empty search text filters, whitespace included. */
  function SearchStep(es: seq<Entry>, search: string): seq<Entry> {
    if search != "" then Filter(es, e => SearchMatches(e, search)) else es
  }

  /** `if (activeFilter === 'active')`: keep only active rows. */
  function ActiveStep(es: seq<Entry>, filter: ActiveFilter): seq<Entry> {
    if filter == ActiveOnly then Filter(es, (e: Entry) => e.isActive) else es
  }

  /** Reference predicate: the rows the two filters let through. */
  predicate Keep(e: Entry, search: string, filter: ActiveFilter) {
    (search == "" || SearchMatches(e, search)) && (filter == All || e.isActive)
  }

  /** The two filter steps select exactly the rows `Keep` accepts, in input order. */
  lemma {:induction false} StepsSelectKept(es: seq<Entry>, search: string, filter: ActiveFilter)
    ensures ActiveStep(SearchStep(es, search), filter) == Filter(es, e => Keep(e, search, filter))
  {
    var keep := e => Keep(e, search, filter);
    var s := e => SearchMatches(e, search);
    var a := (e: Entry) => e.isActive;
    if search != "" && filter == ActiveOnly {
      FilterFuse(es, s, a, keep);
    } else if search != "" {
      FilterExtensional(es, s, keep);
    } else if filter == ActiveOnly {
      FilterExtensional(es, a, keep);
    } else {
      FilterAll(es, keep);
    }
  }

  // ---------------------------------------------------------------- sorting

  /** The comparator `b.createdAt - a.createdAt` orders by `createdAt`, newest first. */
  predicate SortedNewestFirst(es: seq<Entry>) {
    forall i, j :: 0 <= i < j < |es| ==> es[i].createdAt >= es[j].createdAt
  }

  /** Place `x` after every row at least as new: rows of equal time keep their order. */
  function Insert(x: Entry, s: seq<Entry>): seq<Entry>
    decreases |s|
  {
    if |s| == 0 then [x]
    else if s[0].createdAt >= x.createdAt then [s[0]] + Insert(x, s[1..])
    else [x] + s
  }

  /** The stable `Array.prototype.sort` by `createdAt`, newest first. */
  function SortNewestFirst(es: seq<Entry>): seq<Entry>
    decreases |es|
  {
    if |es| == 0 then [] else Insert(es[|es| - 1], SortNewestFirst(es[..|es| - 1]))
  }

  /** The rows with creation time `t`. */
  function CreatedAt(t: int): Entry -> bool {
    (e: Entry) => e.createdAt == t
  }

  /** Every row of `s` is at most `b` old-to-new: no creation time above `b`. */
  predicate NoNewerThan(s: seq<Entry>, b: int) {
    forall k :: 0 <= k < |s| ==> s[k].createdAt <= b
  }

  lemma {:induction false} InsertMultiset(x: Entry, s: seq<Entry>)
    ensures multiset(Insert(x, s)) == multiset(s) + multiset{x}
    decreases |s|
  {
    if |s| > 0 && s[0].createdAt >= x.createdAt {
      InsertMultiset(x, s[1..]);
      assert s == [s[0]] + s[1..];
    }
  }

  lemma {:induction false} InsertNoNewer(x: Entry, s: seq<Entry>, b: int)
    requires NoNewerThan(s, b) && x.createdAt <= b
    ensures NoNewerThan(Insert(x, s), b)
    decreases |s|
  {
    if |s| > 0 && s[0].createdAt >= x.createdAt {
      InsertNoNewer(x, s[1..], b);
    }
  }

  lemma ConsSorted(a: Entry, t: seq<Entry>)
    requires SortedNewestFirst(t) && NoNewerThan(t, a.createdAt)
    ensures SortedNewestFirst([a] + t)
  {
    var s := [a] + t;
    forall i, j | 0 <= i < j < |s|
      ensures s[i].createdAt >= s[j].createdAt
    {
      assert s[j] == t[j - 1];
      if i > 0 {
        assert s[i] == t[i - 1];
      }
    }
  }

  lemma {:induction false} InsertSorted(x: Entry, s: seq<Entry>)
    requires SortedNewestFirst(s)
    ensures SortedNewestFirst(Insert(x, s))
    decreases |s|
  {
    if |s| > 0 {
      if s[0].createdAt >= x.createdAt {
        var rest := s[1..];
        InsertSorted(x, rest);
        assert NoNewerThan(rest, s[0].createdAt) by {
          forall k | 0 <= k < |rest| ensures rest[k].createdAt <= s[0].createdAt {
            assert rest[k] == s[k + 1];
          }
        }
        InsertNoNewer(x, rest, s[0].createdAt);
        ConsSorted(s[0], Insert(x, rest));
      } else {
        ConsSorted(x, s);
      }
    }
  }

  /** `x` newer than every row of `s` goes to the front, after the equal-time rows of `s`, of which there are none. */
  lemma InsertStableFront(x: Entry, s: seq<Entry>, t: int)
    requires SortedNewestFirst(s) && |s| > 0 && s[0].createdAt < x.createdAt
    ensures Filter(Insert(x, s), CreatedAt(t)) == Filter(s, CreatedAt(t)) + Filter([x], CreatedAt(t))
  {
    var p := CreatedAt(t);
    FilterAppend([x], s, p);
    if x.createdAt == t {
      assert forall i :: 0 <= i < |s| ==> s[i].createdAt <= s[0].createdAt;
      FilterNone(s, p);
    } else {
      FilterNone([x], p);
    }
  }

  lemma {:induction false} InsertStable(x: Entry, s: seq<Entry>, t: int)
    requires SortedNewestFirst(s)
    ensures Filter(Insert(x, s), CreatedAt(t)) == Filter(s, CreatedAt(t)) + Filter([x], CreatedAt(t))
    decreases |s|
  {
    var p := CreatedAt(t);
    if |s| == 0 {
      FilterAppend([], [x], p);
      assert [] + [x] == [x];
    } else if s[0].createdAt >= x.createdAt {
      var rest := s[1..];
      assert SortedNewestFirst(rest);
      InsertStable(x, rest, t);
      assert Insert(x, s) == [s[0]] + Insert(x, rest);
      FilterAppend([s[0]], Insert(x, rest), p);
      FilterAppend([s[0]], rest, p);
      assert [s[0]] + rest == s;
      var a, b, c := Filter([s[0]], p), Filter(rest, p), Filter([x], p);
      assert a + (b + c) == (a + b) + c;
    } else {
      InsertStableFront(x, s, t);
    }
  }

  /** The sort is a permutation: every row comes out as often as it went in. */
  lemma {:induction false} SortPermutes(es: seq<Entry>)
    ensures multiset(SortNewestFirst(es)) == multiset(es)
    decreases |es|
  {
    if |es| > 0 {
      var init := es[..|es| - 1];
      SortPermutes(init);
      InsertMultiset(es[|es| - 1], SortNewestFirst(init));
      assert es == init + [es[|es| - 1]];
    }
  }

  /** The sort puts newer rows first. */
  lemma {:induction false} SortOrders(es: seq<Entry>)
    ensures SortedNewestFirst(SortNewestFirst(es))
    decreases |es|
  {
    if |es| > 0 {
      SortOrders(es[..|es| - 1]);
      InsertSorted(es[|es| - 1], SortNewestFirst(es[..|es| - 1]));
    }
  }

  /** The sort is stable: rows of one creation time come out in their input order. */
  lemma {:induction false} SortStable(es: seq<Entry>, t: int)
    ensures Filter(SortNewestFirst(es), CreatedAt(t)) == Filter(es, CreatedAt(t))
    decreases |es|
  {
    if |es| > 0 {
      var init := es[..|es| - 1];
      var x := es[|es| - 1];
      SortStable(init, t);
      SortOrders(init);
      InsertStable(x, SortNewestFirst(init), t);
      assert es == init + [x];
      FilterAppend(init, [x], CreatedAt(t));
    }
  }

  /**
   * The sort is a permutation into newest-first order, and it is stable: the rows of
   * any one creation time come out in their input order.
   */
  lemma SortNewestFirstSpec(es: seq<Entry>)
    ensures multiset(SortNewestFirst(es)) == multiset(es)
    ensures SortedNewestFirst(SortNewestFirst(es))
    ensures forall t :: Filter(SortNewestFirst(es), CreatedAt(t)) == Filter(es, CreatedAt(t))
  {
    SortPermutes(es);
    SortOrders(es);
    forall t
      ensures Filter(SortNewestFirst(es), CreatedAt(t)) == Filter(es, CreatedAt(t))
    {
      SortStable(es, t);
    }
  }

  /**
   * `filteredNotes` / `filteredKeys`: the loaded rows (none before loading), through
   * the search and active filters, sorted newest first.
   */
  function FilteredEntries(fetched: Option<seq<Entry>>, search: string, filter: ActiveFilter): seq<Entry> {
    SortNewestFirst(ActiveStep(SearchStep(fetched.GetOr([]), search), filter))
  }

  /**
   * The table shows exactly the loaded rows both filters keep, each as often as it
   * was fetched, newest first, with rows of equal creation time in fetch order.
   */
  lemma FilteredEntriesSpec(fetched: Option<seq<Entry>>, search: string, filter: ActiveFilter)
    ensures var es := fetched.GetOr([]);
            var r := FilteredEntries(fetched, search, filter);
            var kept := Filter(es, e => Keep(e, search, filter));
            && multiset(r) == multiset(kept)
            && (forall e :: e in r <==> e in es && Keep(e, search, filter))
            && SortedNewestFirst(r)
            && forall t :: Filter(r, CreatedAt(t)) == Filter(kept, CreatedAt(t))
  {
    var es := fetched.GetOr([]);
    StepsSelectKept(es, search, filter);
    var kept := Filter(es, e => Keep(e, search, filter));
    SortNewestFirstSpec(kept);
    var r := FilteredEntries(fetched, search, filter);
    FilterMembers(es, e => Keep(e, search, filter));
    forall e
      ensures e in r <==> e in es && Keep(e, search, filter)
    {
      assert e in r <==> e in multiset(r);
      assert e in kept <==> e in multiset(kept);
    }
  }
}
