/**
 * The task table of a project page: the header lookup, the `filteredTasks`
 * pipeline (completed-status filter, then search), and the initial pagination.
 */
module TaskTable {
  import opened Wrappers
  import opened Text
  import opened Seqs
  import Listing
  import Pagination

  /** A fetched task as the table sees it. */
  datatype TaskRow = TaskRow(description: string, completed: bool, project: Option<Listing.ProjectRef>)

  const UnknownProject: string := "Unknown"

  /** The header: the first task's project matching `projectId`, else `Unknown`. */
  function Header(fetched: Option<seq<TaskRow>>, projectId: string): (h: string)
    ensures var ts := fetched.GetOr([]);
            && ((forall i :: 0 <= i < |ts| ==> !Listing.InProject(ts[i].project, projectId)) ==> h == UnknownProject)
            && forall i :: 0 <= i < |ts| && Listing.InProject(ts[i].project, projectId)
                           && (forall j :: 0 <= j < i ==> !Listing.InProject(ts[j].project, projectId))
                           ==> h == ts[i].project.value.name
  {
    var ts := fetched.GetOr([]);
    var ps := seq(|ts|, i requires 0 <= i < |ts| => ts[i].project);
    assert forall i :: 0 <= i < |ts| ==> ps[i] == ts[i].project;
    Listing.HeaderName(ps, projectId, UnknownProject)
  }

  /** `completedFilter === "completed"` / `"notcompleted"`; any other value keeps every task. */
  function CompletedStep(ts: seq<TaskRow>, completedFilter: string): seq<TaskRow> {
    if completedFilter == "completed" then Filter(ts, (t: TaskRow) => t.completed)
    else if completedFilter == "notcompleted" then Filter(ts, (t: TaskRow) => !t.completed)
    else ts
  }

  /**
   * The description, or the project's name when there is a project, contains the
   * search text ignoring case. The search text is lowercased but not trimmed.
   */
  predicate SearchMatches(t: TaskRow, search: string) {
    MatchesIgnoringCase(t.description, search)
    || (t.project.Some? && MatchesIgnoringCase(t.project.value.name, search))
  }

  /** `if (search.trim())`: a search of only whitespace does not filter. */
  function SearchStep(ts: seq<TaskRow>, search: string): seq<TaskRow> {
    if Trim(search) != "" then Filter(ts, t => SearchMatches(t, search)) else ts
  }

  /** `filteredTasks`: the loaded tasks (none before loading), by status, then by search. */
  function FilteredTasks(fetched: Option<seq<TaskRow>>, completedFilter: string, search: string): seq<TaskRow> {
    SearchStep(CompletedStep(fetched.GetOr([]), completedFilter), search)
  }

  /** Reference predicate: the tasks both filters let through. */
  predicate KeepTask(t: TaskRow, completedFilter: string, search: string) {
    && (completedFilter == "completed" ==> t.completed)
    && (completedFilter == "notcompleted" ==> !t.completed)
    && (Trim(search) == "" || SearchMatches(t, search))
  }

  lemma CompletedStepIsFilter(ts: seq<TaskRow>, completedFilter: string)
    ensures CompletedStep(ts, completedFilter)
            == Filter(ts, (t: TaskRow) => (completedFilter == "completed" ==> t.completed)
                                          && (completedFilter == "notcompleted" ==> !t.completed))
  {
    var c := (t: TaskRow) => (completedFilter == "completed" ==> t.completed)
                             && (completedFilter == "notcompleted" ==> !t.completed);
    if completedFilter == "completed" {
      FilterExtensional(ts, (t: TaskRow) => t.completed, c);
    } else if completedFilter == "notcompleted" {
      FilterExtensional(ts, (t: TaskRow) => !t.completed, c);
    } else {
      FilterAll(ts, c);
    }
  }

  /**
   * The table shows exactly the loaded tasks that pass both filters, in fetch
   * order: `completed` keeps completed tasks, `notcompleted` keeps open ones, any
   * other status keeps all, and a search with some non-whitespace character keeps
   * the tasks whose description or project name contains it.
   */
  lemma FilteredTasksSpec(fetched: Option<seq<TaskRow>>, completedFilter: string, search: string)
    ensures var ts := fetched.GetOr([]);
            var r := FilteredTasks(fetched, completedFilter, search);
            && r == Filter(ts, t => KeepTask(t, completedFilter, search))
            && IsSubsequence(r, ts)
            && forall t :: t in r <==> t in ts && KeepTask(t, completedFilter, search)
  {
    var ts := fetched.GetOr([]);
    var c := (t: TaskRow) => (completedFilter == "completed" ==> t.completed)
                             && (completedFilter == "notcompleted" ==> !t.completed);
    var keep := t => KeepTask(t, completedFilter, search);
    CompletedStepIsFilter(ts, completedFilter);
    if Trim(search) != "" {
      FilterFuse(ts, c, t => SearchMatches(t, search), keep);
    } else {
      FilterExtensional(ts, c, keep);
    }
    FilterIsSubsequence(ts, keep);
    FilterMembers(ts, keep);
  }

  /** The table's pagination state before any interaction: page 0, 30 rows. */
  const InitialPagination: Pagination.PageState := Pagination.PageState(0, 30)

  /**
   * The initial page size is one of the selectable sizes, and as soon as at least
   * one task is shown the initial page exists.
   */
  lemma InitialPaginationValid(shown: nat)
    requires shown > 0
    ensures InitialPagination.pageSize in Pagination.PageSizeChoices
    ensures Pagination.ValidPage(InitialPagination.pageIndex, Pagination.TotalPages(shown, InitialPagination.pageSize))
  {
  }
}
