/** The user-input section: the admin defines the fields a candidate fills
    in at login, one form row at a time. Each row has a name, a type and
    type-specific settings. The `while True` loop keeps adding rows until it
    reaches one whose name or type is blank. A row with inconsistent
    settings (a date or time range whose minimum is after its maximum, a
    time with no format chosen, a list with no items) is not recorded, but
    the loop goes on to the next row. A range error is shown for every row
    the loop renders, the last one included. Dates are day numbers; times
    are minutes since midnight, or 12-hour readings: choosing one of the
    strings "hh:mm AM/PM" the select box offers is choosing the reading it
    writes. */
module UserInputs {
  import opened Seqs
  import Text
  import opened Clock

  /** The two text input types on offer. */
  datatype TextKind = AllCharacters | OnlyLetters

  /** The time format select box and the bounds it leads to. */
  datatype TimeSpec =
    | NoFormat                                        // the blank format
    | Hours24(min: MinuteOfDay, max: MinuteOfDay)     // two time inputs
    | Hours12(minReading: Clock12, maxReading: Clock12) // two of the offered strings

  /** The field type select box and the settings it shows. */
  datatype FieldKind =
    | NoType
    | FreeText(textType: TextKind)
    | Number(min: int, max: int)
    | Date(min: int, max: int)
    | Time(spec: TimeSpec)
    | List(items: string)

  /** One form row as the admin left it. */
  datatype FieldEntry = FieldEntry(name: string, kind: FieldKind)

  /** A recorded field, as it goes into the metadata. */
  datatype UserInput =
    | TextField(name: string, textType: TextKind)
    | NumberField(name: string, min: int, max: int)
    | DateField(name: string, minDate: int, maxDate: int)
    | Time24Field(name: string, minTime: string, maxTime: string)
    | Time12Field(name: string, minTime: string, maxTime: string)
    | ListField(name: string, items: seq<string>)

  /** "Min ... should be less than or equal to Max ..." for the row numbered
      `field` (1-based), named `name`. */
  datatype RangeError = RangeError(field: nat, name: string)

  /** The loop stops at a row with a blank name or a blank type. */
  predicate Stops(e: FieldEntry) {
    e.name == "" || e.kind.NoType?
  }

  /** The row's settings show a range error: its minimum is after its
      maximum, as dates, as 24-hour times, or as 12-hour times compared by
      time of day. */
  predicate InvertedRange(e: FieldEntry) {
    match e.kind
    case Date(lo, hi) => lo > hi
    case Time(Hours24(lo, hi)) => lo > hi
    case Time(Hours12(lo, hi)) => Later(lo, hi)
    case _ => false
  }

  /** The record a non-stopping row adds, if any. A 12-hour bound is
      stored as `strptime` then `strftime` with "%I:%M %p" leave the chosen
      string, which is the reading written out. */
  function Accept(e: FieldEntry): Option<UserInput>
    requires !Stops(e)
  {
    match e.kind
    case FreeText(t) => Some(TextField(e.name, t))
    case Number(lo, hi) => Some(NumberField(e.name, lo, hi))
    case Date(lo, hi) => if lo > hi then None else Some(DateField(e.name, lo, hi))
    case Time(NoFormat) => None
    case Time(Hours24(lo, hi)) =>
      if lo > hi then None else Some(Time24Field(e.name, Format24(lo), Format24(hi)))
    case Time(Hours12(lo, hi)) =>
      if Later(lo, hi) then None else Some(Time12Field(e.name, Format12(lo), Format12(hi)))
    case List(text) =>
      if text != "" then Some(ListField(e.name, Text.Split(text, '\n'))) else None
  }

  /** A recorded field keeps the row's name and reads back as the row's
      settings: the stored times parse back to the chosen ones, and the
      stored list items joined with line breaks give back the text typed. */
  lemma AcceptReadsBack(e: FieldEntry)
    requires !Stops(e) && Accept(e).Some?
    ensures var f := Accept(e).value;
      && f.name == e.name
      && (e.kind.FreeText? ==> f == TextField(e.name, e.kind.textType))
      && (e.kind.Number? ==> f == NumberField(e.name, e.kind.min, e.kind.max))
      && (e.kind.Date? ==> f == DateField(e.name, e.kind.min, e.kind.max))
      && (e.kind.Time? && e.kind.spec.Hours24? ==>
            f.Time24Field? && Parse24(f.minTime) == Some(e.kind.spec.min) && Parse24(f.maxTime) == Some(e.kind.spec.max))
      && (e.kind.Time? && e.kind.spec.Hours12? ==>
            f.Time12Field? && Parse12(f.minTime) == Some(e.kind.spec.minReading)
            && Parse12(f.maxTime) == Some(e.kind.spec.maxReading))
      && (e.kind.List? ==> f.ListField? && Text.Join(f.items, '\n') == e.kind.items)
  {
    match e.kind
    case Time(Hours24(lo, hi)) =>
      ParseFormat24(lo);
      ParseFormat24(hi);
    case Time(Hours12(lo, hi)) =>
      ParseFormat12(lo);
      ParseFormat12(hi);
    case List(text) =>
      Text.JoinSplit(text, '\n');
    case _ =>
  }

  /** A row the loop reaches and passes is skipped exactly when its range
      is inverted, its time has no format, or its list is empty. Text and
      number rows are always recorded; a number range is not checked. */
  lemma SkippedIff(e: FieldEntry)
    requires !Stops(e)
    ensures Accept(e).None? <==>
      || InvertedRange(e)
      || e.kind == Time(NoFormat)
      || e.kind == List("")
  {
  }

  /** The records a row adds: none for the blank row, otherwise its
      record if it has one. */
  function Added(e: FieldEntry): (r: seq<UserInput>)
    ensures |r| <= 1
  {
    if Stops(e) then []
    else match Accept(e)
      case Some(f) => [f]
      case None => []
  }

  /** What the loop has produced. */
  datatype Collected = Collected(fields: seq<UserInput>, errors: seq<RangeError>)

  /** The loop from the row numbered `number` (1-based) on, each row passed
      adding `record` of it. */
  function CollectFrom(entries: seq<FieldEntry>, number: nat, record: FieldEntry -> seq<UserInput>): Collected
    decreases |entries|
  {
    if |entries| == 0 then Collected([], [])
    else
      var e := entries[0];
      var errs := if InvertedRange(e) then [RangeError(number, e.name)] else [];
      if Stops(e) then Collected([], errs)
      else
        var rest := CollectFrom(entries[1..], number + 1, record);
        Collected(record(e) + rest.fields, errs + rest.errors)
  }

  /** The whole loop, rows numbered from 1. */
  function Collect(entries: seq<FieldEntry>): Collected {
    CollectFrom(entries, 1, Added)
  }

  /** One turn of the loop: the first row's error, then either the stop or
      its record followed by the rest. */
  lemma CollectStep(entries: seq<FieldEntry>, first: nat, record: FieldEntry -> seq<UserInput>)
    requires |entries| > 0
    ensures var e, errs := entries[0], if InvertedRange(entries[0]) then [RangeError(first, entries[0].name)] else [];
      && (Stops(e) ==> CollectFrom(entries, first, record).fields == []
                       && CollectFrom(entries, first, record).errors == errs)
      && (!Stops(e) ==>
            && CollectFrom(entries, first, record).fields
                 == record(e) + CollectFrom(entries[1..], first + 1, record).fields
            && CollectFrom(entries, first, record).errors
                 == errs + CollectFrom(entries[1..], first + 1, record).errors)
  {
  }

  /** One turn of the loop, in terms of what it has produced so far: the
      row's error is appended, and unless the row stops the loop, its
      record is too and the rest of the rows follow. */
  lemma CollectAdvance(entries: seq<FieldEntry>, index: nat, record: FieldEntry -> seq<UserInput>,
                       fields: seq<UserInput>, errors: seq<RangeError>)
    requires index < |entries|
    ensures var e := entries[index];
      var errs := errors + if InvertedRange(e) then [RangeError(index + 1, e.name)] else [];
      var here, next := CollectFrom(entries[index..], index + 1, record),
                        CollectFrom(entries[index + 1..], index + 2, record);
      && (Stops(e) ==> fields + here.fields == fields && errors + here.errors == errs)
      && (!Stops(e) ==>
            && fields + here.fields == (fields + record(e)) + next.fields
            && errors + here.errors == errs + next.errors)
  {
    var tail := entries[index..];
    assert tail[0] == entries[index] && tail[1..] == entries[index + 1..];
    CollectStep(tail, index + 1, record);
  }

  /** The loop as the page runs it. */
  method CollectInputs(entries: seq<FieldEntry>) returns (fields: seq<UserInput>, errors: seq<RangeError>)
    ensures fields == Collect(entries).fields && errors == Collect(entries).errors
  {
    fields := [];
    errors := [];
    var index := 0;
    while index < |entries|
      invariant 0 <= index <= |entries|
      invariant Collect(entries).fields == fields + CollectFrom(entries[index..], index + 1, Added).fields
      invariant Collect(entries).errors == errors + CollectFrom(entries[index..], index + 1, Added).errors
    {
      var e := entries[index];
      CollectAdvance(entries, index, Added, fields, errors);
      if InvertedRange(e) {
        errors := errors + [RangeError(index + 1, e.name)];
      }
      if Stops(e) {
        return;
      }
      fields := fields + Added(e);
      index := index + 1;
    }
  }

  predicate NoneStops(entries: seq<FieldEntry>) {
    forall k :: 0 <= k < |entries| ==> !Stops(entries[k])
  }

  /** How many rows the loop passes before it stops: the index of the
      first blank row, or all rows if there is none. */
  function Reached(entries: seq<FieldEntry>): (n: nat)
    ensures n <= |entries|
    ensures NoneStops(entries[..n])
    ensures n < |entries| ==> Stops(entries[n])
  {
    if |entries| == 0 then 0
    else if Stops(entries[0]) then 0
    else
      var n := 1 + Reached(entries[1..]);
      assert forall k :: 1 <= k < n ==> entries[..n][k] == entries[1..][..n - 1][k - 1];
      n
  }

  /** How many rows the page renders: those the loop passes, and the blank
      row it stops at. */
  function Rendered(entries: seq<FieldEntry>): (n: nat)
    ensures n <= |entries|
  {
    if Reached(entries) < |entries| then Reached(entries) + 1 else Reached(entries)
  }

  /** Reference definition of the recorded fields: every row's record, in
      row order. */
  function AcceptAll(entries: seq<FieldEntry>, record: FieldEntry -> seq<UserInput>): seq<UserInput> {
    if |entries| == 0 then []
    else AcceptAll(entries[..|entries| - 1], record) + record(entries[|entries| - 1])
  }

  /** Reference definition of the range errors shown for rows numbered from
      `first` on: one per row with an inverted range, in row order. */
  function RangeErrors(entries: seq<FieldEntry>, first: nat): seq<RangeError> {
    if |entries| == 0 then []
    else
      var last := entries[|entries| - 1];
      RangeErrors(entries[..|entries| - 1], first)
        + (if InvertedRange(last) then [RangeError(first + |entries| - 1, last.name)] else [])
  }

  /** Rows that are all filled in neither stop the loop nor hide the rows
      after them, whatever they record. */
  lemma {:induction false} CollectAppend(a: seq<FieldEntry>, b: seq<FieldEntry>, first: nat,
                                         record: FieldEntry -> seq<UserInput>)
    requires NoneStops(a)
    ensures CollectFrom(a + b, first, record).fields
         == CollectFrom(a, first, record).fields + CollectFrom(b, first + |a|, record).fields
    ensures CollectFrom(a + b, first, record).errors
         == CollectFrom(a, first, record).errors + CollectFrom(b, first + |a|, record).errors
  {
    if |a| > 0 {
      var tail := a[1..];
      assert (a + b)[0] == a[0] && (a + b)[1..] == tail + b;
      assert NoneStops(tail) by {
        forall k | 0 <= k < |tail| ensures !Stops(tail[k]) {
          assert tail[k] == a[k + 1];
        }
      }
      assert !Stops(a[0]);
      CollectAppend(tail, b, first + 1, record);
      CollectStep(a + b, first, record);
      CollectStep(a, first, record);
    } else {
      assert a + b == b;
    }
  }

  /** Over rows none of which is blank, the loop records what the reference
      definitions say. */
  lemma {:induction false} CollectNoStop(entries: seq<FieldEntry>, first: nat, record: FieldEntry -> seq<UserInput>)
    requires NoneStops(entries)
    ensures CollectFrom(entries, first, record).fields == AcceptAll(entries, record)
    ensures CollectFrom(entries, first, record).errors == RangeErrors(entries, first)
  {
    if |entries| > 0 {
      var n := |entries| - 1;
      var init, last := entries[..n], entries[n];
      assert NoneStops(init) by {
        forall k | 0 <= k < n ensures !Stops(init[k]) {
          assert init[k] == entries[k];
        }
      }
      CollectNoStop(init, first, record);
      assert entries == init + [last];
      CollectAppend(init, [last], first, record);
      assert [last][1..] == [];
    }
  }

  /** The row the loop stops at records nothing and shows its own range
      error, if any. */
  lemma StopRow(rest: seq<FieldEntry>, first: nat, record: FieldEntry -> seq<UserInput>)
    requires |rest| > 0 && Stops(rest[0])
    ensures CollectFrom(rest, first, record).fields == []
    ensures CollectFrom(rest, first, record).errors
      == (if InvertedRange(rest[0]) then [RangeError(first, rest[0].name)] else [])
  {
  }

  /** The loop over all rows is the loop over the rows it passes, then the
      loop from the row it stops at. */
  lemma SplitAtStop(entries: seq<FieldEntry>, record: FieldEntry -> seq<UserInput>)
    ensures CollectFrom(entries, 1, record).fields == AcceptAll(entries[..Reached(entries)], record)
      + CollectFrom(entries[Reached(entries)..], Reached(entries) + 1, record).fields
    ensures CollectFrom(entries, 1, record).errors == RangeErrors(entries[..Reached(entries)], 1)
      + CollectFrom(entries[Reached(entries)..], Reached(entries) + 1, record).errors
  {
    var n := Reached(entries);
    var init, rest := entries[..n], entries[n..];
    assert entries == init + rest;
    CollectAppend(init, rest, 1, record);
    CollectNoStop(init, 1, record);
  }

  /** The recorded fields are the records of the rows before the first
      blank one, in row order: a skipped row does not end the loop, and the
      rows after the first blank one play no part. */
  lemma CollectFields(entries: seq<FieldEntry>)
    ensures Collect(entries).fields == AcceptAll(entries[..Reached(entries)], Added)
  {
    SplitAtStop(entries, Added);
    var n := Reached(entries);
    if n < |entries| {
      StopRow(entries[n..], n + 1, Added);
    }
  }

  /** The range errors are those of the rows rendered, the blank row the
      loop stops at included, in row order. */
  lemma CollectErrors(entries: seq<FieldEntry>)
    ensures Collect(entries).errors == RangeErrors(entries[..Rendered(entries)], 1)
  {
    SplitAtStop(entries, Added);
    var n := Reached(entries);
    var stop := entries[..Rendered(entries)];
    if n < |entries| {
      var rest := entries[n..];
      assert rest[0] == entries[n];
      StopRow(rest, n + 1, Added);
      assert stop[..n] == entries[..n] && stop[n] == entries[n];
    } else {
      assert stop == entries[..n];
      assert entries[n..] == [];
    }
  }

  /** Rows after a blank row change nothing. */
  lemma {:induction false} IgnoredAfterStop(entries: seq<FieldEntry>, more: seq<FieldEntry>, first: nat)
    requires !NoneStops(entries)
    ensures CollectFrom(entries + more, first, Added).fields == CollectFrom(entries, first, Added).fields
    ensures CollectFrom(entries + more, first, Added).errors == CollectFrom(entries, first, Added).errors
  {
    var both := entries + more;
    assert both[0] == entries[0] && both[1..] == entries[1..] + more;
    if !Stops(entries[0]) {
      var tail := entries[1..];
      assert !NoneStops(tail) by {
        var j :| 0 <= j < |entries| && Stops(entries[j]);
        assert j > 0 && tail[j - 1] == entries[j];
      }
      IgnoredAfterStop(tail, more, first + 1);
      CollectStep(both, first, Added);
      CollectStep(entries, first, Added);
    }
  }

  /** A recorded range reads back in order: dates as day numbers, 24-hour
      and 12-hour times parsed back from the stored strings. */
  predicate RangeOrdered(f: UserInput) {
    match f
    case DateField(_, lo, hi) => lo <= hi
    case Time24Field(_, lo, hi) =>
      Parse24(lo).Some? && Parse24(hi).Some? && Parse24(lo).value <= Parse24(hi).value
    case Time12Field(_, lo, hi) =>
      Parse12(lo).Some? && Parse12(hi).Some? && !Later(Parse12(lo).value, Parse12(hi).value)
    case _ => true
  }

  /** Every record a row adds has its range in order. */
  lemma AcceptedOrdered(e: FieldEntry)
    ensures forall k :: 0 <= k < |Added(e)| ==> RangeOrdered(Added(e)[k])
  {
    if !Stops(e) && Accept(e).Some? {
      AcceptReadsBack(e);
    }
  }

  /** Every recorded field has its range in order. */
  lemma {:induction false} FieldsOrdered(entries: seq<FieldEntry>)
    ensures forall k :: 0 <= k < |AcceptAll(entries, Added)| ==> RangeOrdered(AcceptAll(entries, Added)[k])
  {
    if |entries| > 0 {
      var n := |entries| - 1;
      FieldsOrdered(entries[..n]);
      AcceptedOrdered(entries[n]);
    }
  }

  /** Whatever the admin enters, every field the loop records has its range
      in order. */
  lemma CollectOrdered(entries: seq<FieldEntry>)
    ensures forall k :: 0 <= k < |Collect(entries).fields| ==> RangeOrdered(Collect(entries).fields[k])
  {
    CollectFields(entries);
    FieldsOrdered(entries[..Reached(entries)]);
  }
}
