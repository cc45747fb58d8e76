/** The question-sheet check: every row of the questions table, already
    renamed to the five canonical columns, has its answer type normalised,
    its options trimmed and split on line breaks, its option count checked
    against the answer type, and is expanded into display rows; question
    and option strings that name image files are collected. One `valid`
    flag covers the whole sheet. Whether a string names a readable image
    file is the parameter `isImage`. */
module Questions {
  import opened Seqs
  import opened Text
  import opened Frame

  const TopicColumn := "Topic/Subject"
  const QuestionsColumn := "Questions"
  const AnswerTypeColumn := "Answer Type"
  const GroupColumn := "Group"
  const OptionsColumn := "Options"

  /** The five canonical columns, in the order the questions table is written. */
  const Canonical: seq<string> :=
    [TopicColumn, QuestionsColumn, AnswerTypeColumn, GroupColumn, OptionsColumn]

  /** One row of the questions sheet, read through the canonical columns. */
  datatype QuestionRow =
    QuestionRow(topic: Cell, question: Cell, answerType: Cell, group: Cell, options: Cell)

  /** How the display table shows a question or an option: as text, or as
      an embedded thumbnail of the image file at `path`. */
  datatype Shown = Plain(text: string) | Image(path: string)

  /** The "Option No" cell: empty, or the 1-based number of the option. */
  datatype OptionNo = NoNumber | Number(n: nat)

  datatype DisplayRow = DisplayRow(
    topic: Cell, question: Shown, answerType: Cell, group: Cell,
    optionNo: OptionNo, option: Shown)

  /** Why a row makes the sheet invalid. */
  datatype Problem =
    | TooFewOptions    // a choice question with fewer than two options
    | OptionsNotBlank  // a number or text question with options

  /** A warning names the 1-based position of the row in the sheet. */
  datatype Warning = Warning(row: nat, problem: Problem)

  datatype RowOutcome = RowOutcome(problem: Option<Problem>, display: seq<DisplayRow>, images: seq<string>)

  datatype BatchOutcome = BatchOutcome(
    valid: bool, display: seq<DisplayRow>, images: seq<string>, warnings: seq<Warning>)

  /** The empty text the display puts in the repeated fields of options 2..n. */
  const Blank := Str("")

  /** `str(value)`: a missing value prints as "nan". */
  function AsText(c: Cell): string {
    match c
    case NA => "nan"
    case Str(s) => s
  }

  /** `str(value).strip()` for a present value, `''` for a missing one. */
  function StrippedOrEmpty(c: Cell): string {
    match c
    case NA => ""
    case Str(s) => Strip(s)
  }

  /** The answer type as compared: trimmed and lower-cased, nothing else. */
  function AnswerTypeOf(row: QuestionRow): string {
    Lower(Strip(AsText(row.answerType)))
  }

  function OptionsOf(row: QuestionRow): string {
    StrippedOrEmpty(row.options)
  }

  function QuestionOf(row: QuestionRow): string {
    StrippedOrEmpty(row.question)
  }

  /** The options split on line breaks, empty pieces included. */
  function PiecesOf(row: QuestionRow): seq<string> {
    Split(OptionsOf(row), '\n')
  }

  predicate IsChoiceType(t: string) {
    t == "multiple choice" || t == "single choice"
  }

  predicate IsBlankOptionType(t: string) {
    t == "number" || t == "text"
  }

  function Show(s: string, isImage: string -> bool): Shown {
    if isImage(s) then Image(s) else Plain(s)
  }

  /** The string a display cell stands for. */
  function ShownText(d: Shown): string {
    match d
    case Plain(s) => s
    case Image(p) => p
  }

  /** What the display of a choice question with options `pieces` looks
      like: one row per option in split order, numbered from 1, with the
      question's topic, text, answer type and group on the first row only
      and empty on the others. */
  predicate ChoiceDisplay(row: QuestionRow, question: Shown, pieces: seq<string>,
                          display: seq<DisplayRow>, isImage: string -> bool)
  {
    && |display| == |pieces|
    && (forall k :: 0 <= k < |display| ==>
          display[k].optionNo == Number(k + 1) && display[k].option == Show(pieces[k], isImage))
    && (|display| > 0 ==>
          && display[0].topic == row.topic && display[0].question == question
          && display[0].answerType == row.answerType && display[0].group == row.group)
    && (forall k :: 1 <= k < |display| ==>
          && display[k].topic == Blank && display[k].question == Plain("")
          && display[k].answerType == Blank && display[k].group == Blank)
  }

  /** Display row number `i` (1-based) of a choice question. */
  function OptionRow(row: QuestionRow, question: Shown, i: nat, option: Shown): DisplayRow {
    if i == 1 then DisplayRow(row.topic, question, row.answerType, row.group, Number(1), option)
    else DisplayRow(Blank, Plain(""), Blank, Blank, Number(i), option)
  }

  /** The `enumerate(option_list, start=1)` loop of a choice question:
      display row `k + 1` shows piece `k`. */
  function ExpandOptions(row: QuestionRow, question: Shown, pieces: seq<string>,
                         isImage: string -> bool): seq<DisplayRow>
  {
    seq(|pieces|, k requires 0 <= k < |pieces| => OptionRow(row, question, k + 1, Show(pieces[k], isImage)))
  }

  /** The expansion has the shape of a choice display. */
  lemma ExpandOptionsShape(row: QuestionRow, question: Shown, pieces: seq<string>, isImage: string -> bool)
    ensures ChoiceDisplay(row, question, pieces, ExpandOptions(row, question, pieces, isImage), isImage)
  {
  }

  /** The strings among `pieces` that name image files, in order. */
  function ImagePaths(pieces: seq<string>, isImage: string -> bool): seq<string>
  {
    if |pieces| == 0 then []
    else (if isImage(pieces[0]) then [pieces[0]] else []) + ImagePaths(pieces[1..], isImage)
  }

  /** The image paths are the pieces that name images, and only those. */
  lemma {:induction false} ImagePathsMembers(pieces: seq<string>, isImage: string -> bool)
    ensures forall s :: s in ImagePaths(pieces, isImage) <==> s in pieces && isImage(s)
    decreases |pieces|
  {
    if |pieces| > 0 {
      ImagePathsMembers(pieces[1..], isImage);
      assert forall s :: s in pieces <==> s == pieces[0] || s in pieces[1..];
    }
  }

  /** One pass of the row loop; its properties are the lemmas below. */
  function ProcessRow(row: QuestionRow, isImage: string -> bool): RowOutcome
  {
    var kind := AnswerTypeOf(row);
    var options := OptionsOf(row);
    var question := QuestionOf(row);
    var shown := Show(question, isImage);
    var questionImages := if isImage(question) then [question] else [];
    if IsChoiceType(kind) then
      var pieces := Split(options, '\n');
      if |pieces| < 2 then RowOutcome(Some(TooFewOptions), [], questionImages)
      else
        RowOutcome(None, ExpandOptions(row, shown, pieces, isImage),
                   questionImages + ImagePaths(pieces, isImage))
    else
      var problem := if IsBlankOptionType(kind) && options != "" then Some(OptionsNotBlank) else None;
      RowOutcome(problem, [DisplayRow(row.topic, shown, row.answerType, row.group, NoNumber, Plain(options))],
                 questionImages)
  }

  /** A choice question (answer type "multiple choice" or "single choice"
      after trimming and lower-casing) whose options give fewer than two
      pieces is invalid and shows nothing; with two or more pieces it is
      valid and shows one row per piece, numbered from 1 in split order,
      with the question's own fields on the first row only. */
  lemma ChoiceRow(row: QuestionRow, isImage: string -> bool)
    requires IsChoiceType(AnswerTypeOf(row))
    ensures var r := ProcessRow(row, isImage);
      if |PiecesOf(row)| < 2 then r.problem == Some(TooFewOptions) && r.display == []
      else
        && r.problem == None
        && ChoiceDisplay(row, Show(QuestionOf(row), isImage), PiecesOf(row), r.display, isImage)
  {
    ExpandOptionsShape(row, Show(QuestionOf(row), isImage), PiecesOf(row), isImage);
  }

  /** Any other answer type shows exactly one row, with no option number
      and the trimmed options as they are, whether the row is valid or not.
      Only "number" and "text" with non-blank options make it invalid. */
  lemma OtherRow(row: QuestionRow, isImage: string -> bool)
    requires !IsChoiceType(AnswerTypeOf(row))
    ensures var r := ProcessRow(row, isImage);
      && r.display == [DisplayRow(row.topic, Show(QuestionOf(row), isImage), row.answerType,
                                  row.group, NoNumber, Plain(OptionsOf(row)))]
      && (r.problem.Some? <==> IsBlankOptionType(AnswerTypeOf(row)) && OptionsOf(row) != "")
      && (r.problem.Some? ==> r.problem.value == OptionsNotBlank)
  {
  }

  /** The row's image references: its question if that names an image,
      recorded first, and, for a choice question shown option by option,
      every option that names an image. */
  lemma RowImages(row: QuestionRow, isImage: string -> bool)
    ensures var r := ProcessRow(row, isImage);
      && (forall s :: s in r.images <==>
            || (s == QuestionOf(row) && isImage(s))
            || (IsChoiceType(AnswerTypeOf(row)) && |PiecesOf(row)| >= 2
                && s in PiecesOf(row) && isImage(s)))
      && (isImage(QuestionOf(row)) ==> |r.images| > 0 && r.images[0] == QuestionOf(row))
  {
    ImagePathsMembers(PiecesOf(row), isImage);
  }

  /** The warning a row raises, numbered `number`. */
  function WarningsOf(r: RowOutcome, number: nat): seq<Warning> {
    if r.problem.Some? then [Warning(number, r.problem.value)] else []
  }

  /** `f` applied to every row, in sheet order. */
  function MapRows(rows: seq<QuestionRow>, f: QuestionRow -> RowOutcome): seq<RowOutcome>
  {
    seq(|rows|, i requires 0 <= i < |rows| => f(rows[i]))
  }

  lemma MapRowsAppend(a: seq<QuestionRow>, b: seq<QuestionRow>, f: QuestionRow -> RowOutcome)
    ensures MapRows(a + b, f) == MapRows(a, f) + MapRows(b, f)
  {
    var l, r := MapRows(a + b, f), MapRows(a, f) + MapRows(b, f);
    forall i | 0 <= i < |l|
      ensures l[i] == r[i]
    {
      if i < |a| {
        assert (a + b)[i] == a[i];
      } else {
        assert (a + b)[i] == b[i - |a|];
      }
    }
  }

  /** The outcome of every row, in sheet order. */
  function Outcomes(rows: seq<QuestionRow>, isImage: string -> bool): (os: seq<RowOutcome>)
  {
    MapRows(rows, row => ProcessRow(row, isImage))
  }

  lemma OutcomeAt(rows: seq<QuestionRow>, isImage: string -> bool, i: nat)
    requires i < |rows|
    ensures Outcomes(rows, isImage)[i] == ProcessRow(rows[i], isImage)
  {
  }

  lemma OutcomesAppend(a: seq<QuestionRow>, b: seq<QuestionRow>, isImage: string -> bool)
    ensures Outcomes(a + b, isImage) == Outcomes(a, isImage) + Outcomes(b, isImage)
  {
    MapRowsAppend(a, b, row => ProcessRow(row, isImage));
  }

  /** The `valid` flag after the given rows: set before the first row,
      cleared by any invalid row and never set again. */
  predicate AllValid(os: seq<RowOutcome>)
    decreases |os|
  {
    if |os| == 0 then true else AllValid(os[..|os| - 1]) && os[|os| - 1].problem.None?
  }

  /** The display rows collected so far, row after row. */
  function Displays(os: seq<RowOutcome>): seq<DisplayRow>
    decreases |os|
  {
    if |os| == 0 then [] else Displays(os[..|os| - 1]) + os[|os| - 1].display
  }

  /** The image references collected so far, row after row. */
  function Images(os: seq<RowOutcome>): seq<string>
    decreases |os|
  {
    if |os| == 0 then [] else Images(os[..|os| - 1]) + os[|os| - 1].images
  }

  /** The warnings raised so far; the row at index `i` is numbered `i + 1`. */
  function Warnings(os: seq<RowOutcome>): seq<Warning>
    decreases |os|
  {
    if |os| == 0 then [] else Warnings(os[..|os| - 1]) + WarningsOf(os[|os| - 1], |os|)
  }

  /** The whole loop over the sheet: every row is processed, in order,
      whatever came before it. */
  function Batch(rows: seq<QuestionRow>, isImage: string -> bool): BatchOutcome {
    var os := Outcomes(rows, isImage);
    BatchOutcome(AllValid(os), Displays(os), Images(os), Warnings(os))
  }

  /** One more row: how each accumulator grows. */
  lemma Step(os: seq<RowOutcome>, k: nat)
    requires k < |os|
    ensures AllValid(os[..k + 1]) == (AllValid(os[..k]) && os[k].problem.None?)
    ensures Displays(os[..k + 1]) == Displays(os[..k]) + os[k].display
    ensures Images(os[..k + 1]) == Images(os[..k]) + os[k].images
    ensures Warnings(os[..k + 1]) == Warnings(os[..k]) + WarningsOf(os[k], k + 1)
  {
    PrefixSnoc(os, k);
    Snoc(os[..k], os[k]);
  }

  /** The body of the loop: one row's outcome added to the accumulators,
      the row numbered `index + 1` in its warning. */
  method Accumulate(r: RowOutcome, index: nat, valid: bool, display: seq<DisplayRow>,
                    images: seq<string>, warnings: seq<Warning>)
    returns (valid': bool, display': seq<DisplayRow>, images': seq<string>, warnings': seq<Warning>)
    ensures valid' == (valid && r.problem.None?)
    ensures display' == display + r.display && images' == images + r.images
    ensures warnings' == warnings + WarningsOf(r, index + 1)
  {
    valid', warnings' := valid, warnings;
    if r.problem.Some? {
      valid' := false;
      warnings' := warnings + [Warning(index + 1, r.problem.value)];
    }
    display' := display + r.display;
    images' := images + r.images;
  }

  /** The loop as the script runs it, accumulating into four variables. */
  method CheckQuestions(rows: seq<QuestionRow>, isImage: string -> bool)
    returns (valid: bool, display: seq<DisplayRow>, images: seq<string>, warnings: seq<Warning>)
    ensures valid == Batch(rows, isImage).valid
    ensures display == Batch(rows, isImage).display
    ensures images == Batch(rows, isImage).images
    ensures warnings == Batch(rows, isImage).warnings
  {
    ghost var outcomes := Outcomes(rows, isImage);
    valid := true;
    display := [];
    images := [];
    warnings := [];
    var index := 0;
    while index < |rows|
      invariant 0 <= index <= |rows|
      invariant valid == AllValid(outcomes[..index])
      invariant display == Displays(outcomes[..index])
      invariant images == Images(outcomes[..index])
      invariant warnings == Warnings(outcomes[..index])
    {
      var r := ProcessRow(rows[index], isImage);
      OutcomeAt(rows, isImage, index);
      Step(outcomes, index);
      valid, display, images, warnings := Accumulate(r, index, valid, display, images, warnings);
      index := index + 1;
    }
    assert outcomes[..|rows|] == outcomes;
  }

  lemma {:induction false} AllValidIff(os: seq<RowOutcome>)
    ensures AllValid(os) <==> forall i :: 0 <= i < |os| ==> os[i].problem.None?
    ensures AllValid(os) <==> Warnings(os) == []
    decreases |os|
  {
    if |os| > 0 {
      var init := os[..|os| - 1];
      var last := os[|os| - 1];
      AllValidIff(init);
      assert forall i :: 0 <= i < |init| ==> init[i] == os[i];
      assert AllValid(os) == (AllValid(init) && last.problem.None?);
      assert Warnings(os) == Warnings(init) + WarningsOf(last, |os|);
      assert WarningsOf(last, |os|) == [] <==> last.problem.None?;
    }
  }

  /** The sheet is valid exactly when every row is, and exactly when no
      warning was raised. */
  lemma BatchValidIffAllRowsValid(rows: seq<QuestionRow>, isImage: string -> bool)
    ensures Batch(rows, isImage).valid
        <==> forall i :: 0 <= i < |rows| ==> ProcessRow(rows[i], isImage).problem.None?
    ensures Batch(rows, isImage).valid <==> Batch(rows, isImage).warnings == []
  {
    var os := Outcomes(rows, isImage);
    AllValidIff(os);
    forall i | 0 <= i < |rows|
      ensures os[i] == ProcessRow(rows[i], isImage)
    {
      OutcomeAt(rows, isImage, i);
    }
  }

  /** Warning `w` names a row of `os` and that row's problem. */
  predicate WarningFits(w: Warning, os: seq<RowOutcome>) {
    1 <= w.row <= |os| && os[w.row - 1].problem == Some(w.problem)
  }

  /** Every warning names a row in range and that row's problem. */
  lemma {:induction false} WarningsSound(os: seq<RowOutcome>)
    ensures forall k :: 0 <= k < |Warnings(os)| ==> WarningFits(Warnings(os)[k], os)
    decreases |os|
  {
    if |os| > 0 {
      var n := |os|;
      var init := os[..n - 1];
      WarningsSound(init);
      var before := Warnings(init);
      var ws := Warnings(os);
      assert ws == before + WarningsOf(os[n - 1], n);
      forall k | 0 <= k < |ws|
        ensures WarningFits(ws[k], os)
      {
        if k < |before| {
          assert ws[k] == before[k];
          assert WarningFits(before[k], init);
          assert init[before[k].row - 1] == os[before[k].row - 1];
        }
      }
    }
  }

  /** Every invalid row has its warning. */
  lemma {:induction false} WarningsComplete(os: seq<RowOutcome>)
    ensures forall i :: 0 <= i < |os| && os[i].problem.Some? ==>
      Warning(i + 1, os[i].problem.value) in Warnings(os)
    decreases |os|
  {
    if |os| > 0 {
      var n := |os|;
      var init := os[..n - 1];
      WarningsComplete(init);
      var ws := Warnings(os);
      forall i | 0 <= i < n && os[i].problem.Some?
        ensures Warning(i + 1, os[i].problem.value) in ws
      {
        if i < n - 1 {
          assert init[i] == os[i];
          assert Warning(i + 1, init[i].problem.value) in Warnings(init);
        } else {
          assert ws[|ws| - 1] == Warning(n, os[n - 1].problem.value);
        }
      }
    }
  }

  /** Row numbers strictly increase along `ws`: sheet order, at most one
      warning per row. */
  predicate Ascending(ws: seq<Warning>) {
    forall a, b :: 0 <= a < b < |ws| ==> ws[a].row < ws[b].row
  }

  /** Warnings come in strictly increasing row order. */
  lemma {:induction false} WarningsOrdered(os: seq<RowOutcome>)
    ensures Ascending(Warnings(os))
    decreases |os|
  {
    if |os| > 0 {
      var n := |os|;
      var init := os[..n - 1];
      WarningsOrdered(init);
      WarningsSound(init);
      var before := Warnings(init);
      var added := WarningsOf(os[n - 1], n);
      var ws := Warnings(os);
      assert ws == before + added;
      forall a, b | 0 <= a < b < |ws|
        ensures ws[a].row < ws[b].row
      {
        if b < |before| {
          assert ws[a] == before[a] && ws[b] == before[b];
          assert before[a].row < before[b].row;
        } else {
          assert |added| <= 1 && ws[b] == added[b - |before|] && ws[b].row == n;
          assert a < |before| && ws[a] == before[a];
          assert WarningFits(before[a], init);
        }
      }
    }
  }

  /** Warning `w` names a row of `rows` and the problem that row has. */
  predicate NamesRow(w: Warning, rows: seq<QuestionRow>, isImage: string -> bool) {
    1 <= w.row <= |rows| && ProcessRow(rows[w.row - 1], isImage).problem == Some(w.problem)
  }

  /** Every warning names a row of the sheet and that row's problem. */
  lemma BatchWarningsSound(rows: seq<QuestionRow>, isImage: string -> bool)
    ensures var ws := Batch(rows, isImage).warnings;
      forall k :: 0 <= k < |ws| ==> NamesRow(ws[k], rows, isImage)
  {
    var ws := Warnings(Outcomes(rows, isImage));
    assert Batch(rows, isImage).warnings == ws;
    WarningsSound(Outcomes(rows, isImage));
    forall k | 0 <= k < |ws|
      ensures NamesRow(ws[k], rows, isImage)
    {
      assert WarningFits(ws[k], Outcomes(rows, isImage));
      OutcomeAt(rows, isImage, ws[k].row - 1);
    }
  }

  /** Every invalid row raises a warning naming its 1-based position and
      its problem. */
  lemma BatchWarningsComplete(rows: seq<QuestionRow>, isImage: string -> bool)
    ensures forall i :: 0 <= i < |rows| && ProcessRow(rows[i], isImage).problem.Some? ==>
      Warning(i + 1, ProcessRow(rows[i], isImage).problem.value) in Batch(rows, isImage).warnings
  {
    var os := Outcomes(rows, isImage);
    WarningsComplete(os);
    forall i | 0 <= i < |rows| && ProcessRow(rows[i], isImage).problem.Some?
      ensures Warning(i + 1, ProcessRow(rows[i], isImage).problem.value) in Warnings(os)
    {
      OutcomeAt(rows, isImage, i);
    }
  }

  /** Warnings come out in sheet order, at most one per row. */
  lemma BatchWarningsOrdered(rows: seq<QuestionRow>, isImage: string -> bool)
    ensures Ascending(Batch(rows, isImage).warnings)
  {
    var os := Outcomes(rows, isImage);
    assert Batch(rows, isImage).warnings == Warnings(os);
    WarningsOrdered(os);
  }

  /** Warnings with every row number moved down by `offset`. */
  function Shift(ws: seq<Warning>, offset: nat): seq<Warning> {
    seq(|ws|, k requires 0 <= k < |ws| => Warning(ws[k].row + offset, ws[k].problem))
  }

  lemma ShiftAppend(ws: seq<Warning>, xs: seq<Warning>, offset: nat)
    ensures Shift(ws + xs, offset) == Shift(ws, offset) + Shift(xs, offset)
  {
    var l, r := Shift(ws + xs, offset), Shift(ws, offset) + Shift(xs, offset);
    forall k | 0 <= k < |l|
      ensures l[k] == r[k]
    {
      if k < |ws| {
        assert (ws + xs)[k] == ws[k];
      } else {
        assert (ws + xs)[k] == xs[k - |ws|];
      }
    }
  }

  lemma {:induction false} AllValidAppend(a: seq<RowOutcome>, b: seq<RowOutcome>)
    ensures AllValid(a + b) == (AllValid(a) && AllValid(b))
    decreases |b|
  {
    if |b| == 0 {
      assert a + b == a;
    } else {
      var init := b[..|b| - 1];
      AllValidAppend(a, init);
      AppendLast(a, b);
      Snoc(a + init, b[|b| - 1]);
    }
  }

  lemma {:induction false} DisplaysAppend(a: seq<RowOutcome>, b: seq<RowOutcome>)
    ensures Displays(a + b) == Displays(a) + Displays(b)
    decreases |b|
  {
    if |b| == 0 {
      assert a + b == a;
    } else {
      var init := b[..|b| - 1];
      var last := b[|b| - 1];
      DisplaysAppend(a, init);
      AppendLast(a, b);
      Snoc(a + init, last);
      calc {
        Displays(a + b);
        Displays(a + init) + last.display;
        Displays(a) + Displays(init) + last.display;
        Displays(a) + (Displays(init) + last.display);
        Displays(a) + Displays(b);
      }
    }
  }

  lemma {:induction false} ImagesAppend(a: seq<RowOutcome>, b: seq<RowOutcome>)
    ensures Images(a + b) == Images(a) + Images(b)
    decreases |b|
  {
    if |b| == 0 {
      assert a + b == a;
    } else {
      var init := b[..|b| - 1];
      var last := b[|b| - 1];
      ImagesAppend(a, init);
      AppendLast(a, b);
      Snoc(a + init, last);
      calc {
        Images(a + b);
        Images(a + init) + last.images;
        Images(a) + Images(init) + last.images;
        Images(a) + (Images(init) + last.images);
        Images(a) + Images(b);
      }
    }
  }

  lemma {:induction false} WarningsAppend(a: seq<RowOutcome>, b: seq<RowOutcome>)
    ensures Warnings(a + b) == Warnings(a) + Shift(Warnings(b), |a|)
    decreases |b|
  {
    if |b| == 0 {
      assert a + b == a;
    } else {
      var init := b[..|b| - 1];
      var last := b[|b| - 1];
      WarningsAppend(a, init);
      AppendLast(a, b);
      Snoc(a + init, last);
      ShiftAppend(Warnings(init), WarningsOf(last, |b|), |a|);
      calc {
        Warnings(a + b);
        Warnings(a + init) + WarningsOf(last, |a| + |b|);
        Warnings(a) + Shift(Warnings(init), |a|) + WarningsOf(last, |a| + |b|);
        { assert Shift(WarningsOf(last, |b|), |a|) == WarningsOf(last, |a| + |b|); }
        Warnings(a) + (Shift(Warnings(init), |a|) + Shift(WarningsOf(last, |b|), |a|));
        Warnings(a) + Shift(Warnings(init) + WarningsOf(last, |b|), |a|);
        Warnings(a) + Shift(Warnings(b), |a|);
      }
    }
  }

  /** Checking a sheet in two parts gives the same result as checking it
      whole: an invalid row in the first part neither stops nor changes the
      processing of the second, whose warnings keep their sheet positions. */
  lemma BatchAppend(a: seq<QuestionRow>, b: seq<QuestionRow>, isImage: string -> bool)
    ensures Batch(a + b, isImage).valid == (Batch(a, isImage).valid && Batch(b, isImage).valid)
    ensures Batch(a + b, isImage).display == Batch(a, isImage).display + Batch(b, isImage).display
    ensures Batch(a + b, isImage).images == Batch(a, isImage).images + Batch(b, isImage).images
    ensures Batch(a + b, isImage).warnings
         == Batch(a, isImage).warnings + Shift(Batch(b, isImage).warnings, |a|)
  {
    var oa, ob := Outcomes(a, isImage), Outcomes(b, isImage);
    OutcomesAppend(a, b, isImage);
    AllValidAppend(oa, ob);
    DisplaysAppend(oa, ob);
    ImagesAppend(oa, ob);
    WarningsAppend(oa, ob);
  }

  lemma {:induction false} ImagesFromRows(os: seq<RowOutcome>)
    ensures forall s :: s in Images(os) <==> exists i :: 0 <= i < |os| && s in os[i].images
    decreases |os|
  {
    if |os| > 0 {
      var init := os[..|os| - 1];
      ImagesFromRows(init);
      assert forall i :: 0 <= i < |init| ==> init[i] == os[i];
    }
  }

  /** A string is recorded as an image reference exactly when some row
      records it: as its question, or as an option it displays. */
  lemma BatchImages(rows: seq<QuestionRow>, isImage: string -> bool)
    ensures forall s :: s in Batch(rows, isImage).images <==>
      exists i :: 0 <= i < |rows| && s in ProcessRow(rows[i], isImage).images
  {
    var os := Outcomes(rows, isImage);
    ImagesFromRows(os);
    forall i | 0 <= i < |rows|
      ensures os[i] == ProcessRow(rows[i], isImage)
    {
      OutcomeAt(rows, isImage, i);
    }
  }

  /** The option cells of a display, as strings. */
  function OptionTexts(display: seq<DisplayRow>): seq<string> {
    seq(|display|, k requires 0 <= k < |display| => ShownText(display[k].option))
  }

  /** The expansion loses no option: joining the displayed options of a
      valid choice question with line breaks gives back its trimmed options. */
  lemma ExpansionKeepsOptions(row: QuestionRow, isImage: string -> bool)
    requires IsChoiceType(AnswerTypeOf(row)) && |PiecesOf(row)| >= 2
    ensures Join(OptionTexts(ProcessRow(row, isImage).display), '\n') == OptionsOf(row)
  {
    ChoiceRow(row, isImage);
    var d := ProcessRow(row, isImage).display;
    assert OptionTexts(d) == PiecesOf(row) by {
      forall k | 0 <= k < |d|
        ensures OptionTexts(d)[k] == PiecesOf(row)[k]
      {
        assert d[k].option == Show(PiecesOf(row)[k], isImage);
      }
    }
    JoinSplit(OptionsOf(row), '\n');
  }

  /** Number of pieces that are not empty. */
  function NonEmptyCount(pieces: seq<string>): (n: nat)
    ensures n <= |pieces|
  {
    if |pieces| == 0 then 0 else (if pieces[0] != "" then 1 else 0) + NonEmptyCount(pieces[1..])
  }

  lemma {:induction false} NonEmptyCountPositive(pieces: seq<string>, k: nat)
    requires k < |pieces| && pieces[k] != ""
    ensures NonEmptyCount(pieces) >= 1
    decreases |pieces|
  {
    if k > 0 {
      NonEmptyCountPositive(pieces[1..], k - 1);
    }
  }

  /** Counting raw pieces and counting non-empty pieces agree on whether a
      choice question has at least two options: the options are trimmed
      before the split, so a line break can be neither their first nor
      their last character, and with two or more pieces the first and the
      last are not empty. Only pieces strictly inside can be empty. */
  lemma PieceRuleMatchesNonEmptyRule(row: QuestionRow)
    ensures |PiecesOf(row)| >= 2 <==> NonEmptyCount(PiecesOf(row)) >= 2
    ensures |PiecesOf(row)| >= 2 ==>
      PiecesOf(row)[0] != "" && PiecesOf(row)[|PiecesOf(row)| - 1] != ""
  {
    var o := OptionsOf(row);
    var ps := PiecesOf(row);
    assert o == [] || (!IsSpace(o[0]) && !IsSpace(o[|o| - 1]));
    if |ps| >= 2 {
      JoinSplit(o, '\n');
      assert o == ps[0] + ['\n'] + Join(ps[1..], '\n');
      assert ps[0] != "";
      JoinLast(ps, '\n');
      assert ps[|ps| - 1] != "";
      NonEmptyCountPositive(ps[1..], |ps| - 2);
    }
  }
}
