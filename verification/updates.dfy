/**
 * The reply of the `/update` command: the tasks completed today, grouped by
 * project name in order of first appearance, each group listing its task
 * descriptions in query order.
 */
module Updates {
  import opened Wrappers

  /** One task of today's query result: its project's name (if any) and its description. */
  datatype Row = Row(projectName: Option<string>, description: string)

  const Uncategorized: string := "🗂️ Uncategorized"
  const NoUpdatesReply: string := "🟡 No updates for today."
  const UpdatesHeader: string := "✅ *Completed Tasks Today*\n"

  /** `task.project?.name || '🗂️ Uncategorized'`: a missing or empty name falls back. */
  function Label(r: Row): (l: string)
    ensures l != ""
  {
    if r.projectName.Some? && r.projectName.value != "" then r.projectName.value else Uncategorized
  }

  datatype Group = Group(name: string, descriptions: seq<string>)

  function Names(gs: seq<Group>): seq<string> {
    seq(|gs|, k requires 0 <= k < |gs| => gs[k].name)
  }

  /** Index of the group called `name`, if there is one. */
  function FindGroup(gs: seq<Group>, name: string): (r: Option<nat>)
    ensures r.Some? ==> r.value < |gs| && gs[r.value].name == name
    ensures r.None? ==> forall k :: 0 <= k < |gs| ==> gs[k].name != name
  {
    if |gs| == 0 then None
    else if gs[|gs| - 1].name == name then Some(|gs| - 1)
    else FindGroup(gs[..|gs| - 1], name)
  }

  /** One step of the `reduce`: push onto the group's list, creating the group if absent. */
  function AddToGroups(gs: seq<Group>, name: string, d: string): seq<Group> {
    match FindGroup(gs, name)
    case None => gs + [Group(name, [d])]
    case Some(k) => gs[k := Group(name, gs[k].descriptions + [d])]
  }

  /**
   * The names a plain object literal inherits from `Object.prototype`. For each of
   * them `acc[name]` is already truthy on `{}`, so no array is created and
   * `acc[name].push(...)` throws a `TypeError`.
   */
  const InheritedKeys: set<string> := {
    "constructor", "hasOwnProperty", "isPrototypeOf", "propertyIsEnumerable",
    "toLocaleString", "toString", "valueOf", "__proto__",
    "__defineGetter__", "__defineSetter__", "__lookupGetter__", "__lookupSetter__"
  }

  /** Some row's label is an inherited key, so the `reduce` throws on reaching it. */
  predicate ReduceThrows(rows: seq<Row>) {
    exists i :: 0 <= i < |rows| && Label(rows[i]) in InheritedKeys
  }

  /**
   * The `tasks.reduce(...)` that builds the project-name-to-descriptions record, left
   * to right, for labels that are own keys of the record once created.
   */
  function GroupRows(rows: seq<Row>): seq<Group> {
    if |rows| == 0 then []
    else
      var last := rows[|rows| - 1];
      AddToGroups(GroupRows(rows[..|rows| - 1]), Label(last), last.description)
  }

  // ---------------------------------------------------------------- reference definition

  /** The distinct labels of `rows`, each at the position of its first appearance. */
  function Labels(rows: seq<Row>): seq<string> {
    if |rows| == 0 then []
    else
      var ls := Labels(rows[..|rows| - 1]);
      var l := Label(rows[|rows| - 1]);
      if l in ls then ls else ls + [l]
  }

  /** The descriptions of the rows labelled `name`, in row order. */
  function DescriptionsOf(rows: seq<Row>, name: string): seq<string> {
    if |rows| == 0 then []
    else
      var last := rows[|rows| - 1];
      DescriptionsOf(rows[..|rows| - 1], name) + (if Label(last) == name then [last.description] else [])
  }

  predicate Distinct(xs: seq<string>) {
    forall i, j :: 0 <= i < j < |xs| ==> xs[i] != xs[j]
  }

  /** The grouping the reply is meant to show: one group per distinct label, in first-appearance order. */
  function ExpectedGroups(rows: seq<Row>): seq<Group> {
    var ls := Labels(rows);
    seq(|ls|, k requires 0 <= k < |ls| => Group(ls[k], DescriptionsOf(rows, ls[k])))
  }

  /**
   * The labels list has no repeats and names exactly the labels of the rows.
   */
  lemma {:induction false} LabelsSpec(rows: seq<Row>)
    ensures Distinct(Labels(rows))
    ensures forall l :: l in Labels(rows) <==> exists i :: 0 <= i < |rows| && Label(rows[i]) == l
  {
    if |rows| > 0 {
      var init := rows[..|rows| - 1];
      LabelsSpec(init);
      forall l | l in Labels(rows)
        ensures exists i :: 0 <= i < |rows| && Label(rows[i]) == l
      {
        if l in Labels(init) {
          var i :| 0 <= i < |init| && Label(init[i]) == l;
          assert rows[i] == init[i];
        } else {
          assert Label(rows[|rows| - 1]) == l;
        }
      }
      forall i | 0 <= i < |rows|
        ensures Label(rows[i]) in Labels(rows)
      {
        if i < |init| {
          assert rows[i] == init[i];
        }
      }
    }
  }

  /** A name that labels no row has no descriptions. */
  lemma {:induction false} DescriptionsOfAbsent(rows: seq<Row>, name: string)
    requires name !in Labels(rows)
    ensures DescriptionsOf(rows, name) == []
  {
    if |rows| > 0 {
      DescriptionsOfAbsent(rows[..|rows| - 1], name);
    }
  }

  /** With distinct group names, the lookup finds the one group of that name. */
  lemma FindGroupUnique(gs: seq<Group>, k: nat)
    requires k < |gs| && Distinct(Names(gs))
    ensures FindGroup(gs, gs[k].name) == Some(k)
  {
    NamesIdentify(gs);
    var f := FindGroup(gs, gs[k].name);
    assert f.Some?;
  }

  /** With distinct names, two positions holding the same name are the same position. */
  lemma NamesIdentify(gs: seq<Group>)
    requires Distinct(Names(gs))
    ensures forall i, j :: 0 <= i < |gs| && 0 <= j < |gs| && gs[i].name == gs[j].name ==> i == j
  {
    forall i, j | 0 <= i < |gs| && 0 <= j < |gs| && gs[i].name == gs[j].name
      ensures i == j
    {
      assert Names(gs)[i] == gs[i].name && Names(gs)[j] == gs[j].name;
    }
  }

  /** One more row whose label is already known extends that label's group. */
  lemma GroupStepKnown(init: seq<Row>, last: Row)
    requires GroupRows(init) == ExpectedGroups(init)
    requires Distinct(Labels(init)) && Label(last) in Labels(init)
    ensures GroupRows(init + [last]) == ExpectedGroups(init + [last])
  {
    var rows := init + [last];
    assert rows[..|rows| - 1] == init;
    var l := Label(last);
    var gs := GroupRows(init);
    var ls := Labels(init);
    assert Labels(rows) == ls;
    assert Names(gs) == ls;
    var k :| 0 <= k < |ls| && ls[k] == l;
    FindGroupUnique(gs, k);
    var got := gs[k := Group(l, gs[k].descriptions + [last.description])];
    assert GroupRows(rows) == got;
    var expected := ExpectedGroups(rows);
    forall j | 0 <= j < |ls|
      ensures got[j] == expected[j]
    {
      assert gs[j] == Group(ls[j], DescriptionsOf(init, ls[j]));
      assert expected[j] == Group(ls[j], DescriptionsOf(rows, ls[j]));
      assert DescriptionsOf(rows, ls[j]) == DescriptionsOf(init, ls[j]) + (if l == ls[j] then [last.description] else []);
      if j != k {
        assert ls[j] != l;
      }
    }
  }

  /** One more row with a new label opens a new group at the end. */
  lemma GroupStepNew(init: seq<Row>, last: Row)
    requires GroupRows(init) == ExpectedGroups(init)
    requires Distinct(Labels(init)) && Label(last) !in Labels(init)
    ensures GroupRows(init + [last]) == ExpectedGroups(init + [last])
  {
    var rows := init + [last];
    assert rows[..|rows| - 1] == init;
    var l := Label(last);
    var gs := GroupRows(init);
    var ls := Labels(init);
    assert FindGroup(gs, l) == None by {
      forall j | 0 <= j < |gs| ensures gs[j].name != l {
        assert gs[j].name == ls[j];
      }
    }
    DescriptionsOfAbsent(init, l);
    assert Labels(rows) == ls + [l];
    var got := GroupRows(rows);
    var expected := ExpectedGroups(rows);
    assert got == gs + [Group(l, [last.description])];
    assert |got| == |expected|;
    forall j | 0 <= j < |got|
      ensures got[j] == expected[j]
    {
      if j < |ls| {
        assert ls[j] != l;
        assert DescriptionsOf(rows, ls[j]) == DescriptionsOf(init, ls[j]);
      } else {
        assert DescriptionsOf(rows, l) == [last.description];
      }
    }
  }

  /**
   * The `reduce` builds exactly the expected grouping: groups in first-appearance
   * order, each with its rows' descriptions in row order.
   */
  lemma {:induction false} GroupRowsMatchesExpected(rows: seq<Row>)
    ensures GroupRows(rows) == ExpectedGroups(rows)
  {
    if |rows| > 0 {
      var init := rows[..|rows| - 1];
      var last := rows[|rows| - 1];
      assert rows == init + [last];
      GroupRowsMatchesExpected(init);
      LabelsSpec(init);
      if Label(last) in Labels(init) {
        GroupStepKnown(init, last);
      } else {
        GroupStepNew(init, last);
      }
    }
  }

  /**
   * The `reduce` as it runs on `{}`: it throws (`None`) when a label is an inherited
   * key, and otherwise yields the record built by `GroupRows`.
   */
  function Reduce(rows: seq<Row>): Option<seq<Group>> {
    if ReduceThrows(rows) then None else Some(GroupRows(rows))
  }

  /**
   * The `reduce` fails exactly when some row's label is an inherited key. When it
   * completes it yields one group per label in order of first appearance, each
   * holding exactly its rows' descriptions in row order.
   */
  lemma ReduceSpec(rows: seq<Row>)
    ensures Reduce(rows).None? <==> exists i :: 0 <= i < |rows| && Label(rows[i]) in InheritedKeys
    ensures Reduce(rows).Some? ==> Reduce(rows).value == ExpectedGroups(rows)
  {
    GroupRowsMatchesExpected(rows);
  }

  /** Every row lands in exactly one group: the group sizes add up to the number of rows. */
  lemma {:induction false} GroupRowsSize(rows: seq<Row>)
    ensures TotalDescriptions(GroupRows(rows)) == |rows|
  {
    if |rows| > 0 {
      var init := rows[..|rows| - 1];
      var last := rows[|rows| - 1];
      GroupRowsSize(init);
      var gs := GroupRows(init);
      match FindGroup(gs, Label(last))
      case None =>
        TotalDescriptionsAppend(gs, [Group(Label(last), [last.description])]);
      case Some(k) =>
        TotalDescriptionsUpdate(gs, k, Group(Label(last), gs[k].descriptions + [last.description]));
    }
  }

  function TotalDescriptions(gs: seq<Group>): nat {
    if |gs| == 0 then 0 else TotalDescriptions(gs[..|gs| - 1]) + |gs[|gs| - 1].descriptions|
  }

  lemma {:induction false} TotalDescriptionsAppend(a: seq<Group>, b: seq<Group>)
    ensures TotalDescriptions(a + b) == TotalDescriptions(a) + TotalDescriptions(b)
    decreases |b|
  {
    if |b| == 0 {
      assert a + b == a;
    } else {
      assert (a + b)[..|a + b| - 1] == a + b[..|b| - 1];
      assert (a + b)[|a + b| - 1] == b[|b| - 1];
      TotalDescriptionsAppend(a, b[..|b| - 1]);
    }
  }

  lemma TotalDescriptionsUpdate(gs: seq<Group>, k: nat, g: Group)
    requires k < |gs|
    ensures TotalDescriptions(gs[k := g]) == TotalDescriptions(gs) - |gs[k].descriptions| + |g.descriptions|
  {
    assert gs == gs[..k] + [gs[k]] + gs[k + 1..];
    assert gs[k := g] == gs[..k] + [g] + gs[k + 1..];
    TotalDescriptionsAppend(gs[..k] + [gs[k]], gs[k + 1..]);
    TotalDescriptionsAppend(gs[..k] + [g], gs[k + 1..]);
    TotalDescriptionsAppend(gs[..k], [gs[k]]);
    TotalDescriptionsAppend(gs[..k], [g]);
    assert ([] + [g])[..0] == [];
    assert ([] + [gs[k]])[..0] == [];
  }

  // ---------------------------------------------------------------- formatting

  function Bullets(ds: seq<string>): string {
    if |ds| == 0 then "" else Bullets(ds[..|ds| - 1]) + "  • " + ds[|ds| - 1] + "\n"
  }

  function Section(g: Group): string {
    "\n*" + g.name + "*\n" + Bullets(g.descriptions)
  }

  function Sections(gs: seq<Group>): string {
    if |gs| == 0 then "" else Sections(gs[..|gs| - 1]) + Section(gs[|gs| - 1])
  }

  /**
   * The `/update` reply: the fixed "no updates" line for an empty result, `None`
   * when the grouping throws (nothing is sent), otherwise the header followed by one
   * section per project group.
   */
  function UpdatesReply(rows: seq<Row>): (r: Option<string>)
    ensures r.None? <==> |rows| > 0 && ReduceThrows(rows)
    ensures |rows| == 0 <==> r == Some(NoUpdatesReply)
    ensures r.Some? && |rows| > 0 ==> |r.value| >= |UpdatesHeader| && r.value[..|UpdatesHeader|] == UpdatesHeader
  {
    if |rows| == 0 then Some(NoUpdatesReply)
    else
      match Reduce(rows)
      case None => None
      case Some(gs) =>
        var r := UpdatesHeader + Sections(gs);
        assert r[..|UpdatesHeader|] == UpdatesHeader;
        assert r[0] == '✅' && NoUpdatesReply[0] == '🟡';
        Some(r)
  }

  /**
   * A non-empty result whose labels are all own keys renders as the header and
   * then, for each distinct project label in order of first appearance, that
   * label's section listing exactly its rows' descriptions in row order.
   */
  lemma UpdatesReplyGrouped(rows: seq<Row>)
    requires |rows| > 0
    ensures !ReduceThrows(rows) ==> UpdatesReply(rows) == Some(UpdatesHeader + Sections(ExpectedGroups(rows)))
    ensures TotalDescriptions(ExpectedGroups(rows)) == |rows|
  {
    GroupRowsMatchesExpected(rows);
    GroupRowsSize(rows);
  }

  /** A task of a project named `constructor` makes `/update` send nothing. */
  lemma InheritedNameSilencesReply(rows: seq<Row>, i: nat)
    requires i < |rows| && rows[i].projectName == Some("constructor")
    ensures UpdatesReply(rows) == None
  {
    assert Label(rows[i]) in InheritedKeys;
  }
}
