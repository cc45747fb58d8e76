/** The exam metadata record. It is assembled once the cover image is
    uploaded, the exam name is filled in and a login type is chosen. It
    always names the exam, the login type and the cover image. Under
    "Login + Password" it also carries the credentials file name, which is
    null when no credentials table was produced. Under "User Input Model"
    it carries the recorded user-input fields. It carries the questions
    file name only when a questions table was produced. The record is a
    dictionary in insertion order; the file names themselves are random and
    come in as parameters. */
module Metadata {
  import opened Seqs
  import opened Roles
  import opened Credentials
  import opened UserInputs
  import Frame
  import Questions

  /** The login type radio button. */
  datatype LoginType = LoginPassword | UserInputModel

  /** The label the radio button shows and the record stores. */
  function Label(t: LoginType): string {
    match t
    case LoginPassword => "Login + Password"
    case UserInputModel => "User Input Model"
  }

  /** A value in the record. */
  datatype Value =
    | TextValue(text: string)
    | Null
    | InputsValue(fields: seq<UserInput>)

  datatype Entry = Entry(key: string, value: Value)

  const ExamNameKey := "exam_name"
  const LoginTypeKey := "login_type"
  const ImageKey := "login_page_image"
  const CredentialsKey := "login + Password_csv_filename"
  const InputsKey := "user_inputs"
  const QuestionsKey := "exam_questions_csv_filename"

  /** The name of the credentials file: given when the credentials columns
      were selected, absent otherwise (no file uploaded, the login column
      not unique, no password column, or a column missing). */
  function CredentialsFile(outcome: Option<CredentialsOutcome>, name: string): (r: Option<string>)
    ensures r.Some? <==> outcome.Some? && outcome.value.Selected?
    ensures r.Some? ==> r.value == name
  {
    match outcome
    case Some(Selected(_)) => Some(name)
    case _ => None
  }

  /** The name of the questions file: given when the questions table was
      produced, absent otherwise. */
  function QuestionsFile(outcome: Option<SheetOutcome>, name: string): (r: Option<string>)
    ensures r.Some? ==> r.value == name
  {
    match outcome
    case Some(Checked(_, Some(_))) => Some(name)
    case _ => None
  }

  /** With a header pandas produces, the credentials file exists exactly
      when a login column with distinct values and a password column are
      chosen. */
  lemma CredentialsFileIff(sheet: Frame.Table, p: CredentialPicks, name: string)
    requires Frame.WellFormed(sheet) && CredentialsOffered(sheet.columns, p) && Distinct(sheet.columns)
    ensures CredentialsFile(Some(SelectCredentials(sheet, p)), name).Some?
      <==> p.login != "" && p.password != "" && LoginUnique(Frame.Column(sheet, p.login))
  {
    CredentialsNeverMissing(sheet, p);
  }

  /** Once the five roles relabel the sheet, the questions file exists
      exactly when every row read through the picked columns passes its
      checks. */
  lemma QuestionsFileIff(sheet: Frame.Table, r: RolePicks, isImage: string -> bool, name: string)
    requires Relabelling(sheet, r)
    ensures forall k :: 0 <= k < 5 ==> Picks(r)[k] in sheet.columns
    ensures QuestionsFile(Some(ConfigureQuestions(sheet, r, isImage)), name).Some?
      <==> Questions.Batch(PickedRows(sheet, r), isImage).valid
  {
    QuestionTableFaithful(sheet, r, isImage);
  }

  /** The record, when the page assembles one. */
  function Record(examName: string, image: Option<string>, loginType: Option<LoginType>,
                  credentialsFile: Option<string>, inputs: seq<UserInput>,
                  questionsFile: Option<string>): Option<seq<Entry>>
  {
    if image.None? || examName == "" || loginType.None? then None
    else
      var login := match loginType.value
        case LoginPassword =>
          [Entry(CredentialsKey, match credentialsFile case Some(f) => TextValue(f) case None => Null)]
        case UserInputModel => [Entry(InputsKey, InputsValue(inputs))];
      var questions := match questionsFile
        case Some(f) => [Entry(QuestionsKey, TextValue(f))]
        case None => [];
      Some([Entry(ExamNameKey, TextValue(examName)), Entry(LoginTypeKey, TextValue(Label(loginType.value))),
            Entry(ImageKey, TextValue(image.value))] + login + questions)
  }

  function Keys(record: seq<Entry>): seq<string> {
    seq(|record|, k requires 0 <= k < |record| => record[k].key)
  }

  /** Dictionary lookup: the value stored under `key`, if any. */
  function Lookup(record: seq<Entry>, key: string): Option<Value> {
    if |record| == 0 then None
    else if record[0].key == key then Some(record[0].value)
    else Lookup(record[1..], key)
  }

  /** In a record with distinct keys, each key finds its own value. */
  lemma {:induction false} LookupAt(record: seq<Entry>, k: nat)
    requires Distinct(Keys(record)) && k < |record|
    ensures Lookup(record, record[k].key) == Some(record[k].value)
  {
    if k > 0 {
      assert Keys(record)[0] == record[0].key && Keys(record)[k] == record[k].key;
      var rest := record[1..];
      assert Distinct(Keys(rest)) by {
        forall i, j | 0 <= i < j < |rest| ensures Keys(rest)[i] != Keys(rest)[j] {
          assert Keys(record)[i + 1] == rest[i].key && Keys(record)[j + 1] == rest[j].key;
        }
      }
      assert rest[k - 1] == record[k];
      LookupAt(rest, k - 1);
    }
  }

  /** The six keys are pairwise different. */
  lemma KeysDiffer()
    ensures |ExamNameKey| == 9 && |LoginTypeKey| == 10 && |ImageKey| == 16
    ensures |CredentialsKey| == 29 && |InputsKey| == 11 && |QuestionsKey| == 27
  {
  }

  /** There is a record exactly when the image, the name and the login type
      are all given; its keys are distinct. */
  lemma RecordExists(examName: string, image: Option<string>, loginType: Option<LoginType>,
                     credentialsFile: Option<string>, inputs: seq<UserInput>, questionsFile: Option<string>)
    ensures var r := Record(examName, image, loginType, credentialsFile, inputs, questionsFile);
      && (r.Some? <==> image.Some? && examName != "" && loginType.Some?)
      && (r.Some? ==> Distinct(Keys(r.value)))
  {
    var r := Record(examName, image, loginType, credentialsFile, inputs, questionsFile);
    if r.Some? {
      KeysDiffer();
      var keys := Keys(r.value);
      assert keys[..3] == [ExamNameKey, LoginTypeKey, ImageKey];
      assert forall i :: 0 <= i < |keys| ==> |keys[i]| in {9, 10, 16, 29, 11, 27};
      assert forall i, j :: 0 <= i < j < |keys| ==> |keys[i]| != |keys[j]|;
    }
  }

  /** Which keys the record carries: the three common ones always, the
      credentials file name exactly under "Login + Password", the input
      fields exactly under "User Input Model", and the questions file name
      exactly when one was produced. */
  lemma RecordKeys(examName: string, image: Option<string>, loginType: Option<LoginType>,
                   credentialsFile: Option<string>, inputs: seq<UserInput>, questionsFile: Option<string>)
    requires image.Some? && examName != "" && loginType.Some?
    ensures var keys := Keys(Record(examName, image, loginType, credentialsFile, inputs, questionsFile).value);
      && ExamNameKey in keys && LoginTypeKey in keys && ImageKey in keys
      && (CredentialsKey in keys <==> loginType.value == LoginPassword)
      && (InputsKey in keys <==> loginType.value == UserInputModel)
      && (QuestionsKey in keys <==> questionsFile.Some?)
  {
    KeysDiffer();
    var keys := Keys(Record(examName, image, loginType, credentialsFile, inputs, questionsFile).value);
    var tail := if questionsFile.Some? then [QuestionsKey] else [];
    var expected := [ExamNameKey, LoginTypeKey, ImageKey]
      + (if loginType.value == LoginPassword then [CredentialsKey] else [InputsKey]) + tail;
    assert keys == expected;
  }

  /** What the keys hold: the name, the label, the image file name, the
      credentials file name or null, the input fields, the questions file
      name. */
  lemma RecordValues(examName: string, image: Option<string>, loginType: Option<LoginType>,
                     credentialsFile: Option<string>, inputs: seq<UserInput>, questionsFile: Option<string>)
    requires image.Some? && examName != "" && loginType.Some?
    ensures var r := Record(examName, image, loginType, credentialsFile, inputs, questionsFile).value;
      && Lookup(r, ExamNameKey) == Some(TextValue(examName))
      && Lookup(r, LoginTypeKey) == Some(TextValue(Label(loginType.value)))
      && Lookup(r, ImageKey) == Some(TextValue(image.value))
      && (loginType.value == LoginPassword ==>
            Lookup(r, CredentialsKey) == Some(if credentialsFile.Some? then TextValue(credentialsFile.value) else Null))
      && (loginType.value == UserInputModel ==> Lookup(r, InputsKey) == Some(InputsValue(inputs)))
      && (questionsFile.Some? ==> Lookup(r, QuestionsKey) == Some(TextValue(questionsFile.value)))
  {
    RecordExists(examName, image, loginType, credentialsFile, inputs, questionsFile);
    var r := Record(examName, image, loginType, credentialsFile, inputs, questionsFile).value;
    LookupAt(r, 0);
    LookupAt(r, 1);
    LookupAt(r, 2);
    LookupAt(r, 3);
    if questionsFile.Some? {
      LookupAt(r, 4);
    }
  }
}
