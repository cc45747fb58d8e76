/** The question-sheet configuration: five select boxes assign the sheet's
    columns to the roles Topic/Subject, Questions, Answer Type, Group and
    Options. Each box offers a blank entry followed by the columns the
    earlier boxes have not taken (`columns.remove(pick)` after every
    non-blank pick of the first four). Only when all five roles are chosen
    is the sheet renamed to the canonical names, guarded against missing
    columns, checked row by row, and, when valid, projected onto the five
    canonical columns. */
module Roles {
  import opened Seqs
  import opened Frame
  import opened Questions

  /** The column picked for each role; `""` is the blank entry. */
  datatype RolePicks = RolePicks(
    topic: string, questions: string, answerType: string, group: string, options: string)

  /** The picks in the order the select boxes appear. */
  function Picks(r: RolePicks): seq<string> {
    [r.topic, r.questions, r.answerType, r.group, r.options]
  }

  /** Whether each pick in turn is one of the choices its select box
      offers. A select box returns nothing else, so every reachable state of
      the page satisfies this. */
  predicate Offered(columns: seq<string>, picks: seq<string>)
    decreases |picks|, 0
  {
    |picks| == 0 ||
    (var earlier := picks[..|picks| - 1];
     Offered(columns, earlier) && picks[|picks| - 1] in [""] + Remaining(columns, earlier))
  }

  /** The header list after `columns.remove(pick)` for every non-blank pick
      in turn; a blank pick removes nothing. */
  function Remaining(columns: seq<string>, picks: seq<string>): seq<string>
    requires Offered(columns, picks)
    decreases |picks|, 1
  {
    if |picks| == 0 then columns
    else
      var left := Remaining(columns, picks[..|picks| - 1]);
      var pick := picks[|picks| - 1];
      if pick == "" then left else RemoveFirst(left, pick)
  }

  /** In a header without repeats and without a blank name, the columns a
      select box offers are exactly the header columns no earlier box has
      taken, still without repeats. */
  lemma {:induction false} RemainingContents(columns: seq<string>, picks: seq<string>)
    requires Distinct(columns) && "" !in columns && Offered(columns, picks)
    ensures Distinct(Remaining(columns, picks))
    ensures forall c :: c in Remaining(columns, picks) <==> c in columns && c !in picks
    decreases |picks|
  {
    if |picks| > 0 {
      var earlier := picks[..|picks| - 1];
      var pick := picks[|picks| - 1];
      RemainingContents(columns, earlier);
      assert forall c :: c in picks <==> c in earlier || c == pick by {
        assert picks == earlier + [pick];
      }
      var left := Remaining(columns, earlier);
      if pick != "" {
        RemoveFirstDistinct(left, pick);
      }
    }
  }

  /** Every non-blank pick is a header column that no other box picked. */
  lemma {:induction false} PicksDistinct(columns: seq<string>, picks: seq<string>)
    requires Distinct(columns) && "" !in columns && Offered(columns, picks)
    ensures forall k :: 0 <= k < |picks| && picks[k] != "" ==> picks[k] in columns
    ensures forall i, j :: 0 <= i < j < |picks| && picks[i] != "" ==> picks[i] != picks[j]
    decreases |picks|
  {
    if |picks| > 0 {
      var n := |picks|;
      var earlier := picks[..n - 1];
      var pick := picks[n - 1];
      PicksDistinct(columns, earlier);
      RemainingContents(columns, earlier);
      forall i, j | 0 <= i < j < n && picks[i] != ""
        ensures picks[i] != picks[j]
      {
        assert picks[i] == earlier[i];
        if j < n - 1 {
          assert picks[j] == earlier[j];
        } else {
          assert earlier[i] in earlier;
        }
      }
      forall k | 0 <= k < n && picks[k] != ""
        ensures picks[k] in columns
      {
        if k < n - 1 {
          assert picks[k] == earlier[k];
        }
      }
    }
  }

  /** The rename map of the dictionary literal: each picked column to its
      canonical name. A later key replaces an equal earlier one, as in a
      Python dictionary display. */
  function RoleRename(r: RolePicks): map<string, string> {
    map[r.topic := TopicColumn][r.questions := QuestionsColumn][r.answerType := AnswerTypeColumn]
       [r.group := GroupColumn][r.options := OptionsColumn]
  }

  /** With five distinct picks every pick is renamed to its own role. */
  lemma RoleRenameDistinct(r: RolePicks)
    requires Distinct(Picks(r))
    ensures forall j :: 0 <= j < 5 ==> Picks(r)[j] in RoleRename(r) && RoleRename(r)[Picks(r)[j]] == Canonical[j]
    ensures forall c :: c in RoleRename(r) <==> c in Picks(r)
  {
    var ps := Picks(r);
    assert ps[0] != ps[1] && ps[0] != ps[2] && ps[0] != ps[3] && ps[0] != ps[4];
    assert ps[1] != ps[2] && ps[1] != ps[3] && ps[1] != ps[4];
    assert ps[2] != ps[3] && ps[2] != ps[4] && ps[3] != ps[4];
  }

  /** The sheet read through the canonical columns of a renamed table, each
      name looked up at its first occurrence. */
  function ReadRows(t: Table): (rows: seq<QuestionRow>)
    requires WellFormed(t)
    requires forall k :: 0 <= k < |Canonical| ==> Canonical[k] in t.columns
    ensures |rows| == |t.rows|
  {
    assert Canonical[0] in t.columns && Canonical[1] in t.columns && Canonical[2] in t.columns;
    assert Canonical[3] in t.columns && Canonical[4] in t.columns;
    var topic := IndexOf(t.columns, TopicColumn);
    var question := IndexOf(t.columns, QuestionsColumn);
    var answerType := IndexOf(t.columns, AnswerTypeColumn);
    var group := IndexOf(t.columns, GroupColumn);
    var options := IndexOf(t.columns, OptionsColumn);
    seq(|t.rows|, i requires 0 <= i < |t.rows| =>
      QuestionRow(t.rows[i][topic], t.rows[i][question], t.rows[i][answerType],
                  t.rows[i][group], t.rows[i][options]))
  }

  /** What the question-sheet section ends with. */
  datatype SheetOutcome =
    | Incomplete                        // some role is still blank
    | MissingColumns(names: seq<string>) // a canonical column is absent after renaming
    | Checked(batch: BatchOutcome, table: Option<Table>)
      // the rows were checked; the five-column table exists only when valid

  /** The whole section once a sheet is uploaded and the picks are made. */
  function ConfigureQuestions(sheet: Table, r: RolePicks, isImage: string -> bool): SheetOutcome
    requires WellFormed(sheet) && Offered(sheet.columns, Picks(r))
  {
    if r.topic == "" || r.questions == "" || r.answerType == "" || r.group == "" || r.options == ""
    then Incomplete
    else
      var renamed := Rename(sheet, RoleRename(r));
      var missing := Missing(renamed.columns, Canonical);
      if missing != [] then MissingColumns(missing)
      else
        var batch := Batch(ReadRows(renamed), isImage);
        Checked(batch, if batch.valid then Some(Project(renamed, Canonical)) else None)
  }

  /** The rows are checked only when all five roles are chosen. */
  lemma ConfigureNeedsAllRoles(sheet: Table, r: RolePicks, isImage: string -> bool)
    requires WellFormed(sheet) && Offered(sheet.columns, Picks(r))
    ensures ConfigureQuestions(sheet, r, isImage).Incomplete? <==> "" in Picks(r)
  {
  }

  /** The five canonical names differ from one another. */
  lemma CanonicalDistinct()
    ensures Distinct(Canonical)
  {
    assert |Canonical[0]| == 13 && |Canonical[1]| == 9 && |Canonical[2]| == 11;
    assert |Canonical[3]| == 5 && |Canonical[4]| == 7;
  }

  /** Renaming the five distinct picks gives every canonical name to the
      picked column's position, and to no position before it when no other
      column already bears a canonical name. */
  lemma RenamedPosition(columns: seq<string>, r: RolePicks, k: nat)
    requires Distinct(Picks(r)) && k < 5 && Picks(r)[k] in columns
    requires forall c :: c in columns && c in Canonical ==> c in Picks(r)
    ensures var renamed := RenameColumns(columns, RoleRename(r));
      Canonical[k] in renamed && IndexOf(renamed, Canonical[k]) == IndexOf(columns, Picks(r)[k])
  {
    var ps := Picks(r);
    var m := RoleRename(r);
    var renamed := RenameColumns(columns, m);
    RoleRenameDistinct(r);
    CanonicalDistinct();
    assert Canonical[k] in Canonical;
    var p := IndexOf(columns, ps[k]);
    forall j | 0 <= j < p
      ensures renamed[j] != Canonical[k]
    {
      if columns[j] in m {
        var i :| 0 <= i < 5 && ps[i] == columns[j];
        assert i != k;
        assert renamed[j] == Canonical[i];
      } else {
        assert renamed[j] == columns[j];
        assert columns[j] !in Picks(r);
      }
    }
    IndexOfAt(renamed, Canonical[k], p);
  }

  /** Renaming five distinct picks of the header leaves no canonical name
      missing. */
  lemma CanonicalPresent(columns: seq<string>, r: RolePicks)
    requires Distinct(Picks(r)) && forall k :: 0 <= k < 5 ==> Picks(r)[k] in columns
    ensures Missing(RenameColumns(columns, RoleRename(r)), Canonical) == []
  {
    RoleRenameDistinct(r);
    var renamed := RenameColumns(columns, RoleRename(r));
    forall k | 0 <= k < 5
      ensures Canonical[k] in renamed
    {
      var p := IndexOf(columns, Picks(r)[k]);
      assert renamed[p] == Canonical[k];
    }
  }

  /** With a header that pandas produces (no repeats, no blank name) the
      missing-column guard never fires once all five roles are chosen. */
  lemma QuestionsNeverMissing(sheet: Table, r: RolePicks, isImage: string -> bool)
    requires WellFormed(sheet) && Offered(sheet.columns, Picks(r))
    requires Distinct(sheet.columns) && "" !in sheet.columns
    ensures !ConfigureQuestions(sheet, r, isImage).MissingColumns?
  {
    if "" !in Picks(r) {
      PicksDistinct(sheet.columns, Picks(r));
      CanonicalPresent(sheet.columns, r);
    }
  }

  /** The sheet read directly through the picked columns. */
  function PickedRows(sheet: Table, r: RolePicks): (rows: seq<QuestionRow>)
    requires WellFormed(sheet)
    requires forall k :: 0 <= k < 5 ==> Picks(r)[k] in sheet.columns
    ensures |rows| == |sheet.rows|
  {
    assert r.topic == Picks(r)[0] && r.questions == Picks(r)[1] && r.answerType == Picks(r)[2];
    assert r.group == Picks(r)[3] && r.options == Picks(r)[4];
    seq(|sheet.rows|, i requires 0 <= i < |sheet.rows| =>
      QuestionRow(sheet.rows[i][IndexOf(sheet.columns, r.topic)],
                  sheet.rows[i][IndexOf(sheet.columns, r.questions)],
                  sheet.rows[i][IndexOf(sheet.columns, r.answerType)],
                  sheet.rows[i][IndexOf(sheet.columns, r.group)],
                  sheet.rows[i][IndexOf(sheet.columns, r.options)]))
  }

  /** In a sheet whose headers do not repeat, each cell of row `i` is the
      sheet's cell in row `i` at the header position of the column picked
      for that role. */
  lemma PickedRowsColumns(sheet: Table, r: RolePicks)
    requires WellFormed(sheet) && Distinct(sheet.columns)
    requires forall k :: 0 <= k < 5 ==> Picks(r)[k] in sheet.columns
    ensures forall i, p :: 0 <= i < |sheet.rows| && 0 <= p < |sheet.columns| ==>
      var q, c, cell := PickedRows(sheet, r)[i], sheet.columns[p], sheet.rows[i][p];
      && (c == r.topic ==> q.topic == cell)
      && (c == r.questions ==> q.question == cell)
      && (c == r.answerType ==> q.answerType == cell)
      && (c == r.group ==> q.group == cell)
      && (c == r.options ==> q.options == cell)
  {
    forall p | 0 <= p < |sheet.columns|
      ensures IndexOf(sheet.columns, sheet.columns[p]) == p
    {
      IndexOfDistinct(sheet.columns, p);
    }
  }

  /** The conditions under which the renamed sheet is the picked columns
      relabelled: a header pandas produces, five chosen roles, and no
      column outside the picks already named like a role. */
  predicate Relabelling(sheet: Table, r: RolePicks) {
    && WellFormed(sheet) && Offered(sheet.columns, Picks(r))
    && Distinct(sheet.columns) && "" !in sheet.columns && "" !in Picks(r)
    && forall c :: c in sheet.columns && c in Canonical ==> c in Picks(r)
  }

  /** After renaming, each canonical name is found where its picked column was. */
  lemma RenamedPositions(sheet: Table, r: RolePicks)
    requires Relabelling(sheet, r)
    ensures forall k :: 0 <= k < 5 ==> Picks(r)[k] in sheet.columns
    ensures var renamed := Rename(sheet, RoleRename(r)).columns;
      forall k :: 0 <= k < 5 ==>
        Canonical[k] in renamed && IndexOf(renamed, Canonical[k]) == IndexOf(sheet.columns, Picks(r)[k])
  {
    PicksDistinct(sheet.columns, Picks(r));
    assert Distinct(Picks(r));
    forall k | 0 <= k < 5
      ensures var renamed := Rename(sheet, RoleRename(r)).columns;
        Canonical[k] in renamed && IndexOf(renamed, Canonical[k]) == IndexOf(sheet.columns, Picks(r)[k])
    {
      RenamedPosition(sheet.columns, r, k);
    }
  }

  /** The rows the row check sees are the sheet's rows read through the picked
      columns. */
  lemma RenamedRows(sheet: Table, r: RolePicks)
    requires Relabelling(sheet, r)
    ensures forall k :: 0 <= k < 5 ==> Picks(r)[k] in sheet.columns
    ensures var renamed := Rename(sheet, RoleRename(r));
      && Missing(renamed.columns, Canonical) == []
      && ReadRows(renamed) == PickedRows(sheet, r)
  {
    RenamedPositions(sheet, r);
    var renamed := Rename(sheet, RoleRename(r));
    var a, b := ReadRows(renamed), PickedRows(sheet, r);
    forall i | 0 <= i < |a|
      ensures a[i] == b[i]
    {
      assert Canonical[0] == TopicColumn && Picks(r)[0] == r.topic;
      assert Canonical[1] == QuestionsColumn && Picks(r)[1] == r.questions;
      assert Canonical[2] == AnswerTypeColumn && Picks(r)[2] == r.answerType;
      assert Canonical[3] == GroupColumn && Picks(r)[3] == r.group;
      assert Canonical[4] == OptionsColumn && Picks(r)[4] == r.options;
    }
  }

  /** The five-column table is the sheet projected onto the picked columns
      in role order, with the canonical names as header. */
  lemma RenamedTable(sheet: Table, r: RolePicks)
    requires Relabelling(sheet, r)
    ensures forall k :: 0 <= k < 5 ==> Picks(r)[k] in sheet.columns
    ensures var renamed := Rename(sheet, RoleRename(r));
      && Missing(renamed.columns, Canonical) == []
      && Project(renamed, Canonical) == Table(Canonical, Project(sheet, Picks(r)).rows)
  {
    RenamedPositions(sheet, r);
    var renamed := Rename(sheet, RoleRename(r));
    var a, b := Project(renamed, Canonical).rows, Project(sheet, Picks(r)).rows;
    forall i | 0 <= i < |a|
      ensures a[i] == b[i]
    {
      forall k | 0 <= k < 5
        ensures a[i][k] == b[i][k]
      {
        assert renamed.rows[i] == sheet.rows[i];
      }
    }
  }

  /** Once the five roles are chosen on a sheet pandas could produce, the
      rows are checked exactly as read through the picked columns, and the
      questions table exists only for a valid sheet: the five picked
      columns of the original rows, in sheet order, under the canonical
      names. Option expansion for display does not touch it. */
  lemma QuestionTableFaithful(sheet: Table, r: RolePicks, isImage: string -> bool)
    requires Relabelling(sheet, r)
    ensures forall k :: 0 <= k < 5 ==> Picks(r)[k] in sheet.columns
    ensures var out := ConfigureQuestions(sheet, r, isImage);
      && out.Checked?
      && out.batch == Batch(PickedRows(sheet, r), isImage)
      && (out.table.Some? <==> out.batch.valid)
      && (out.table.Some? ==> out.table.value == Table(Canonical, Project(sheet, Picks(r)).rows))
  {
    RenamedPositions(sheet, r);
    RenamedRows(sheet, r);
    RenamedTable(sheet, r);
  }
}
