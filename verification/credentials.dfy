/** The login-and-password section: the admin picks a login column, which
    is accepted only when its values are pairwise distinct and none is
    missing; then a password column among the others; then, one select box
    at a time, further columns to keep under new names, until a box or its
    name is left blank or no column is left. The credentials table is the
    login and password columns followed by the renamed columns. */
module Credentials {
  import opened Seqs
  import opened Frame

  /** One row of the rename loop: the column picked (`""` for blank) and
      the new name typed (`""` for blank). */
  datatype RenameEntry = RenameEntry(column: string, newName: string)

  /** Everything the admin enters in this section, in page order. */
  datatype CredentialPicks = CredentialPicks(login: string, password: string, renames: seq<RenameEntry>)

  /** `df[col].nunique()`: the number of distinct values, a missing value
      not counted. */
  function DistinctCount(cells: seq<Cell>): nat {
    |set c | c in cells && c != NA|
  }

  /** The login check: as many distinct values as rows. */
  predicate LoginUnique(cells: seq<Cell>) {
    DistinctCount(cells) == |cells|
  }

  /** A login column passes exactly when no value is missing and no value
      occurs twice. */
  lemma LoginUniqueIff(cells: seq<Cell>)
    ensures LoginUnique(cells) <==> NA !in cells && Distinct(cells)
  {
    SetSize(cells);
    var present := set c | c in cells && c != NA;
    var all := set c | c in cells;
    assert present <= all;
    if NA in cells {
      assert all == present + {NA};
      assert NA !in present;
      assert |all| == |present| + 1;
    } else {
      assert present == all;
    }
  }

  /** The password select box: blank, then every column but the login. */
  function PasswordChoices(columns: seq<string>, login: string): (r: seq<string>)
    ensures forall c :: c in r <==> c == "" || (c in columns && c != login)
  {
    [""] + Exclude(columns, [login])
  }

  /** The columns the rename loop starts from: all but login and password,
      in header order. */
  function RenameCandidates(columns: seq<string>, login: string, password: string): (r: seq<string>)
    ensures forall c :: c in r <==> c in columns && c != login && c != password
  {
    Exclude(columns, [login, password])
  }

  /** Whether an entry ends the rename loop: blank column or blank name. */
  predicate Stops(e: RenameEntry) {
    e.column == "" || e.newName == ""
  }

  /** Whether every rename entry the loop reads picks blank or a column
      still on offer. The select box returns nothing else. */
  predicate RenamesOffered(remaining: seq<string>, entries: seq<RenameEntry>)
    decreases |entries|
  {
    || |remaining| == 0 || |entries| == 0
    || (&& entries[0].column in [""] + remaining
        && (Stops(entries[0])
            || RenamesOffered(RemoveFirst(remaining, entries[0].column), entries[1..])))
  }

  /** The `while remaining_columns:` loop: the entries it accepts, in order.
      It ends when no column is left, when the entries run out, or at the
      first entry with a blank column or a blank name, which adds nothing. */
  function CollectRenames(remaining: seq<string>, entries: seq<RenameEntry>): seq<RenameEntry>
    requires RenamesOffered(remaining, entries)
    decreases |entries|
  {
    if |remaining| == 0 || |entries| == 0 || Stops(entries[0]) then []
    else [entries[0]] + CollectRenames(RemoveFirst(remaining, entries[0].column), entries[1..])
  }

  /** The loop accepts a prefix of the entries, none of which stops it,
      each picking a column on offer, and never more than there were
      columns left. */
  lemma {:induction false} CollectRenamesPrefix(remaining: seq<string>, entries: seq<RenameEntry>)
    requires RenamesOffered(remaining, entries)
    ensures var acc := CollectRenames(remaining, entries);
      && |acc| <= |remaining| && |acc| <= |entries|
      && (forall k :: 0 <= k < |acc| ==> acc[k] == entries[k] && !Stops(acc[k]) && acc[k].column in remaining)
    decreases |entries|
  {
    if |remaining| > 0 && |entries| > 0 && !Stops(entries[0]) {
      var c := entries[0].column;
      var rest := RemoveFirst(remaining, c);
      CollectRenamesPrefix(rest, entries[1..]);
      var tail := CollectRenames(rest, entries[1..]);
      var acc := CollectRenames(remaining, entries);
      assert acc == [entries[0]] + tail;
      forall k | 1 <= k < |acc|
        ensures acc[k] == entries[k] && acc[k].column in remaining
      {
        assert acc[k] == tail[k - 1];
        assert entries[1..][k - 1] == entries[k];
        RemoveFirstAt(remaining, c, IndexOf(rest, tail[k - 1].column));
      }
    }
  }

  /** No column occurs in two entries. */
  predicate DistinctColumns(d: seq<RenameEntry>) {
    forall i, j :: 0 <= i < j < |d| ==> d[i].column != d[j].column
  }

  /** With a repeat-free header the loop never accepts a column twice. */
  lemma {:induction false} CollectRenamesDistinct(remaining: seq<string>, entries: seq<RenameEntry>)
    requires Distinct(remaining) && RenamesOffered(remaining, entries)
    ensures DistinctColumns(CollectRenames(remaining, entries))
    decreases |entries|
  {
    if |remaining| > 0 && |entries| > 0 && !Stops(entries[0]) {
      var c := entries[0].column;
      var rest := RemoveFirst(remaining, c);
      assert Distinct(rest) && c !in rest by {
        RemoveFirstDistinct(remaining, c);
      }
      CollectRenamesDistinct(rest, entries[1..]);
      var tail := CollectRenames(rest, entries[1..]);
      var acc := CollectRenames(remaining, entries);
      assert acc == [entries[0]] + tail;
      forall i, j | 0 <= i < j < |acc|
        ensures acc[i].column != acc[j].column
      {
        assert acc[j] == tail[j - 1];
        if i > 0 {
          assert acc[i] == tail[i - 1];
          assert DistinctColumns(tail);
          assert tail[i - 1].column != tail[j - 1].column;
        } else {
          assert acc[i].column == c;
          assert tail[j - 1].column in rest by {
            CollectRenamesPrefix(rest, entries[1..]);
          }
        }
      }
    }
  }

  /** The entries up to the first one that stops the loop. */
  function BeforeStop(entries: seq<RenameEntry>): seq<RenameEntry> {
    if |entries| == 0 || Stops(entries[0]) then [] else [entries[0]] + BeforeStop(entries[1..])
  }

  /** Nothing after the first blank entry is ever read: the loop's result
      depends only on the entries before it. */
  lemma {:induction false} NothingAfterStop(remaining: seq<string>, entries: seq<RenameEntry>)
    requires RenamesOffered(remaining, entries)
    ensures RenamesOffered(remaining, BeforeStop(entries))
    ensures CollectRenames(remaining, entries) == CollectRenames(remaining, BeforeStop(entries))
    decreases |entries|
  {
    if |remaining| > 0 && |entries| > 0 && !Stops(entries[0]) {
      NothingAfterStop(RemoveFirst(remaining, entries[0].column), entries[1..]);
      var b := BeforeStop(entries);
      assert b[0] == entries[0] && b[1..] == BeforeStop(entries[1..]);
    }
  }

  /** The loop accepts every entry before the first blank one, as long as
      columns remain: one column leaves the offer per accepted entry. */
  lemma {:induction false} CollectRenamesComplete(remaining: seq<string>, entries: seq<RenameEntry>)
    requires RenamesOffered(remaining, entries)
    ensures var b := BeforeStop(entries);
      CollectRenames(remaining, entries) == if |b| <= |remaining| then b else b[..|remaining|]
    decreases |entries|
  {
    if |remaining| > 0 && |entries| > 0 && !Stops(entries[0]) {
      var rest := RemoveFirst(remaining, entries[0].column);
      CollectRenamesComplete(rest, entries[1..]);
      var b := BeforeStop(entries);
      var b' := BeforeStop(entries[1..]);
      assert b == [entries[0]] + b';
      if |b| > |remaining| {
        assert b[..|remaining|] == [entries[0]] + b'[..|rest|];
      }
    }
  }

  /** A Python dictionary as its entries in insertion order. Assigning to
      a present key changes its value in place; a new key goes last. */
  function Assign(d: seq<RenameEntry>, e: RenameEntry): (r: seq<RenameEntry>)
    ensures |r| == |d| || |r| == |d| + 1
  {
    if |d| == 0 then [e]
    else if d[0].column == e.column then [e] + d[1..]
    else [d[0]] + Assign(d[1..], e)
  }

  /** `rename_columns_dict` after the loop's assignments, in order. */
  function RenameDict(accepted: seq<RenameEntry>): seq<RenameEntry>
    decreases |accepted|
  {
    if |accepted| == 0 then []
    else Assign(RenameDict(accepted[..|accepted| - 1]), accepted[|accepted| - 1])
  }

  function Keys(d: seq<RenameEntry>): seq<string> {
    seq(|d|, k requires 0 <= k < |d| => d[k].column)
  }

  /** `list(rename_columns_dict.values())`. */
  function Values(d: seq<RenameEntry>): seq<string> {
    seq(|d|, k requires 0 <= k < |d| => d[k].newName)
  }

  /** The dictionary as a map, for `df.rename(columns=...)`. */
  function ToMap(d: seq<RenameEntry>): map<string, string>
    decreases |d|
  {
    if |d| == 0 then map[] else ToMap(d[..|d| - 1])[d[|d| - 1].column := d[|d| - 1].newName]
  }

  lemma AssignFresh(d: seq<RenameEntry>, e: RenameEntry)
    requires e.column !in Keys(d)
    ensures Assign(d, e) == d + [e]
  {
    if |d| > 0 {
      assert d[0].column == Keys(d)[0];
      assert Keys(d[1..]) == Keys(d)[1..];
      AssignFresh(d[1..], e);
      assert [d[0]] + (d[1..] + [e]) == d + [e];
    }
  }

  /** Assigning to a key already present replaces its entry in place. */
  lemma {:induction false} AssignPresent(d: seq<RenameEntry>, e: RenameEntry)
    requires e.column in Keys(d)
    ensures Assign(d, e) == d[IndexOf(Keys(d), e.column) := e]
    decreases |d|
  {
    assert Keys(d)[0] == d[0].column;
    if d[0].column != e.column {
      var tail := d[1..];
      assert Keys(tail) == Keys(d)[1..];
      AssignPresent(tail, e);
      var p := IndexOf(Keys(tail), e.column);
      assert forall i :: 0 <= i < p + 1 ==> Keys(d)[i] != e.column by {
        forall i | 1 <= i < p + 1
          ensures Keys(d)[i] != e.column
        {
          assert Keys(d)[i] == Keys(tail)[i - 1];
        }
      }
      IndexOfAt(Keys(d), e.column, p + 1);
      assert [d[0]] + tail[p := e] == d[p + 1 := e];
    }
  }

  /** With keys that never repeat, which is what the loop produces, the
      dictionary keeps every assignment in order. */
  lemma {:induction false} RenameDictDistinct(accepted: seq<RenameEntry>)
    requires DistinctColumns(accepted)
    ensures RenameDict(accepted) == accepted
    decreases |accepted|
  {
    if |accepted| > 0 {
      var n := |accepted|;
      var init := accepted[..n - 1];
      RenameDictDistinct(init);
      assert accepted[n - 1].column !in Keys(init) by {
        forall k | 0 <= k < |init|
          ensures Keys(init)[k] != accepted[n - 1].column
        {
          assert init[k] == accepted[k];
        }
      }
      AssignFresh(init, accepted[n - 1]);
      assert init + [accepted[n - 1]] == accepted;
    }
  }

  /** What the section ends with. */
  datatype CredentialsOutcome =
    | NoLogin                            // login box blank
    | DuplicateLogins                    // "Multiple similar logins are found"
    | NoPassword                         // password box blank
    | MissingColumns(names: seq<string>) // a selected column is absent after renaming
    | Selected(table: Table)             // the table written as the credentials file

  /** Whether every pick is one its select box can return. */
  predicate CredentialsOffered(columns: seq<string>, p: CredentialPicks) {
    && p.login in [""] + columns
    && (p.login != "" ==> p.password in PasswordChoices(columns, p.login))
    && (p.login != "" && p.password != "" ==>
          RenamesOffered(RenameCandidates(columns, p.login, p.password), p.renames))
  }

  /** The whole section once a credentials sheet is uploaded. */
  function SelectCredentials(sheet: Table, p: CredentialPicks): CredentialsOutcome
    requires WellFormed(sheet) && CredentialsOffered(sheet.columns, p)
  {
    if p.login == "" then NoLogin
    else if !LoginUnique(Column(sheet, p.login)) then DuplicateLogins
    else if p.password == "" then NoPassword
    else RenameAndSelect(sheet, p.login, p.password,
                         RenameDict(CollectRenames(RenameCandidates(sheet.columns, p.login, p.password), p.renames)))
  }

  /** The end of the section: rename when the dictionary is not empty,
      then select the login, the password and the new names. */
  function RenameAndSelect(sheet: Table, login: string, password: string, dict: seq<RenameEntry>): CredentialsOutcome
    requires WellFormed(sheet)
  {
    var renamed := if |dict| > 0 then Rename(sheet, ToMap(dict)) else sheet;
    var selected := [login, password] + Values(dict);
    var missing := Missing(renamed.columns, selected);
    if missing != [] then MissingColumns(missing) else Selected(Project(renamed, selected))
  }

  /** The keys of `ToMap(d)` are the keys of `d`, and the last assignment to
      a key gives its value. With distinct keys each entry's name is its
      key's value. */
  lemma {:induction false} ToMapDistinct(d: seq<RenameEntry>)
    requires DistinctColumns(d)
    ensures forall c :: c in ToMap(d) <==> c in Keys(d)
    ensures forall k :: 0 <= k < |d| ==> d[k].column in ToMap(d) && ToMap(d)[d[k].column] == d[k].newName
    decreases |d|
  {
    if |d| > 0 {
      var init := d[..|d| - 1];
      ToMapDistinct(init);
      assert forall k :: 0 <= k < |init| ==> init[k] == d[k];
      assert forall c :: c in Keys(d) <==> c in Keys(init) || c == d[|d| - 1].column by {
        assert Keys(d) == Keys(init) + [d[|d| - 1].column];
      }
    }
  }

  /** The conditions under which the credentials table is a projection of
      the sheet: a header pandas produces, an accepted login and a chosen
      password, and new names that are fresh and pairwise different. */
  predicate FreshRenames(sheet: Table, p: CredentialPicks) {
    && WellFormed(sheet) && CredentialsOffered(sheet.columns, p)
    && Distinct(sheet.columns) && p.login != "" && p.password != ""
    && LoginUnique(Column(sheet, p.login))
    && var acc := CollectRenames(RenameCandidates(sheet.columns, p.login, p.password), p.renames);
       && (forall k :: 0 <= k < |acc| ==> acc[k].newName !in sheet.columns)
       && (forall i, j :: 0 <= i < j < |acc| ==> acc[i].newName != acc[j].newName)
  }

  /** The accepted renames of a section. */
  function Accepted(sheet: Table, p: CredentialPicks): seq<RenameEntry>
    requires FreshRenames(sheet, p)
  {
    CollectRenames(RenameCandidates(sheet.columns, p.login, p.password), p.renames)
  }

  /** The shape of the rename step after an accepted login and password:
      a repeat-free header holding both, and accepted entries that pick
      distinct header columns other than the two. */
  predicate RenameSetup(columns: seq<string>, login: string, password: string, acc: seq<RenameEntry>) {
    && Distinct(columns) && login in columns && password in columns && login != password
    && DistinctColumns(acc)
    && forall k :: 0 <= k < |acc| ==>
         acc[k].column in columns && acc[k].column != login && acc[k].column != password
  }

  /** What the section has established when it reaches the rename step. */
  lemma SetupReached(sheet: Table, p: CredentialPicks)
    requires WellFormed(sheet) && CredentialsOffered(sheet.columns, p) && Distinct(sheet.columns)
    requires p.login != "" && p.password != ""
    ensures var cands := RenameCandidates(sheet.columns, p.login, p.password);
      && RenamesOffered(cands, p.renames)
      && RenameSetup(sheet.columns, p.login, p.password, CollectRenames(cands, p.renames))
      && RenameDict(CollectRenames(cands, p.renames)) == CollectRenames(cands, p.renames)
  {
    var cands := RenameCandidates(sheet.columns, p.login, p.password);
    ExcludeDistinct(sheet.columns, [p.login, p.password]);
    CollectRenamesPrefix(cands, p.renames);
    CollectRenamesDistinct(cands, p.renames);
    RenameDictDistinct(CollectRenames(cands, p.renames));
  }

  /** Login, password and every new name are in the renamed header. */
  lemma SelectedPresent(columns: seq<string>, login: string, password: string, acc: seq<RenameEntry>)
    requires RenameSetup(columns, login, password, acc)
    ensures forall n :: n in [login, password] + Values(acc) ==> n in RenameColumns(columns, ToMap(acc))
  {
    ToMapDistinct(acc);
    var renamed := RenameColumns(columns, ToMap(acc));
    var selected := [login, password] + Values(acc);
    forall n | n in selected
      ensures n in renamed
    {
      var q :| 0 <= q < |selected| && selected[q] == n;
      if q >= 2 {
        var pos := IndexOf(columns, acc[q - 2].column);
        assert Keys(acc)[q - 2] == acc[q - 2].column;
        assert renamed[pos] == n;
      } else {
        var pos := IndexOf(columns, n);
        assert n !in Keys(acc);
        assert renamed[pos] == n;
      }
    }
  }

  /** At the rename step the selected names are all in the header. */
  lemma SelectNeverMissing(sheet: Table, login: string, password: string, acc: seq<RenameEntry>)
    requires WellFormed(sheet) && RenameSetup(sheet.columns, login, password, acc)
    ensures !RenameAndSelect(sheet, login, password, acc).MissingColumns?
  {
    var selected := [login, password] + Values(acc);
    if |acc| > 0 {
      SelectedPresent(sheet.columns, login, password, acc);
      assert forall k :: 0 <= k < |selected| ==> selected[k] in selected;
    } else {
      assert selected == [login, password];
    }
  }

  /** With pairwise distinct headers the missing-column guard never fires:
      login and password are never renamed and every new name is present. */
  lemma CredentialsNeverMissing(sheet: Table, p: CredentialPicks)
    requires WellFormed(sheet) && CredentialsOffered(sheet.columns, p) && Distinct(sheet.columns)
    ensures !SelectCredentials(sheet, p).MissingColumns?
  {
    if p.login != "" && p.password != "" && LoginUnique(Column(sheet, p.login)) {
      SetupReached(sheet, p);
      var acc := CollectRenames(RenameCandidates(sheet.columns, p.login, p.password), p.renames);
      SelectNeverMissing(sheet, p.login, p.password, acc);
    }
  }

  /** With fresh, pairwise different new names, each selected name is
      found in the renamed header exactly where its original column was. */
  lemma SelectedPositions(columns: seq<string>, login: string, password: string, acc: seq<RenameEntry>)
    requires RenameSetup(columns, login, password, acc)
    requires forall k :: 0 <= k < |acc| ==> acc[k].newName !in columns
    requires forall i, j :: 0 <= i < j < |acc| ==> acc[i].newName != acc[j].newName
    ensures var renamed := RenameColumns(columns, ToMap(acc));
      var selected, originals := [login, password] + Values(acc), [login, password] + Keys(acc);
      && |selected| == |originals|
      && forall q :: 0 <= q < |selected| ==>
           originals[q] in columns && selected[q] in renamed
           && IndexOf(renamed, selected[q]) == IndexOf(columns, originals[q])
  {
    ToMapDistinct(acc);
    var m := ToMap(acc);
    var renamed := RenameColumns(columns, m);
    var selected, originals := [login, password] + Values(acc), [login, password] + Keys(acc);
    forall q | 0 <= q < |selected|
      ensures originals[q] in columns && selected[q] in renamed
      ensures IndexOf(renamed, selected[q]) == IndexOf(columns, originals[q])
    {
      var pos := IndexOf(columns, originals[q]);
      forall j | 0 <= j < pos
        ensures renamed[j] != selected[q]
      {
        if columns[j] in m {
          var k :| 0 <= k < |acc| && Keys(acc)[k] == columns[j];
          assert renamed[j] == acc[k].newName;
          if q >= 2 {
            assert k != q - 2;
          }
        }
      }
      if q < 2 {
        assert originals[q] !in m;
      }
      assert renamed[pos] == selected[q];
      IndexOfAt(renamed, selected[q], pos);
    }
  }

  /** At the rename step with fresh new names, the selection is the sheet
      projected onto the original columns, under the selected names. */
  lemma SelectProjection(sheet: Table, login: string, password: string, acc: seq<RenameEntry>)
    requires WellFormed(sheet) && RenameSetup(sheet.columns, login, password, acc)
    requires forall k :: 0 <= k < |acc| ==> acc[k].newName !in sheet.columns
    requires forall i, j :: 0 <= i < j < |acc| ==> acc[i].newName != acc[j].newName
    ensures RenameAndSelect(sheet, login, password, acc)
         == Selected(Table([login, password] + Values(acc), Project(sheet, [login, password] + Keys(acc)).rows))
  {
    SelectNeverMissing(sheet, login, password, acc);
    SelectedPositions(sheet.columns, login, password, acc);
    var renamed := if |acc| > 0 then Rename(sheet, ToMap(acc)) else sheet;
    var selected := [login, password] + Values(acc);
    var originals := [login, password] + Keys(acc);
    assert |acc| == 0 ==> selected == originals;
    var a := Project(renamed, selected).rows;
    var b := Project(sheet, originals).rows;
    forall i | 0 <= i < |a|
      ensures a[i] == b[i]
    {
      forall q | 0 <= q < |selected|
        ensures a[i][q] == b[i][q]
      {
        assert renamed.rows[i] == sheet.rows[i];
      }
    }
  }

  /** The credentials file is the sheet projected onto the login column,
      the password column and the accepted columns in the order they were
      picked, under the login and password names and the new names. */
  lemma CredentialsProjection(sheet: Table, p: CredentialPicks)
    requires FreshRenames(sheet, p)
    ensures var acc := Accepted(sheet, p);
      && (forall k :: 0 <= k < |acc| ==> acc[k].column in sheet.columns)
      && p.login in sheet.columns && p.password in sheet.columns
      && SelectCredentials(sheet, p)
           == Selected(Table([p.login, p.password] + Values(acc),
                             Project(sheet, [p.login, p.password] + Keys(acc)).rows))
  {
    SetupReached(sheet, p);
    SelectProjection(sheet, p.login, p.password, Accepted(sheet, p));
  }
}
