/**
 * The poll form of frontend/src/components/TeacherDashboard.jsx: the
 * option-list edits and the checks `handleCreatePoll` makes before it posts
 * the form to the create route.
 */
module TeacherDashboard {
  import opened Wrappers
  import opened Text
  import opened PollModel
  import opened Store
  import opened Lifecycle
  import opened PollController

  const MinOptions := 2
  const MaxOptions := 6
  const MinDuration := 10
  const MaxDuration := 300

  const MaxOptionsWarning := "Maximum 6 options allowed"
  const MinOptionsWarning := "Minimum 2 options required"
  const QuestionError := "Please enter a question"
  const OptionsError := "Please provide at least 2 options"
  const DurationError := "Duration must be between 10 and 300 seconds"

  /** One row of the form. */
  datatype DraftOption = DraftOption(text: string, isCorrect: bool)

  const BlankOption := DraftOption("", false)

  /** The form's starting options: two blank rows. */
  const InitialOptions := [BlankOption, BlankOption]

  /** The options after an edit, and the warning shown instead when the edit is refused. */
  datatype Edited = Edited(options: seq<DraftOption>, warning: Option<string>)

  /** `handleAddOption`: a blank row is appended while fewer than six are shown. */
  function AddOption(opts: seq<DraftOption>): (r: Edited)
    ensures |opts| < MaxOptions ==> r == Edited(opts + [BlankOption], None)
    ensures |opts| >= MaxOptions ==> r == Edited(opts, Some(MaxOptionsWarning))
  {
    if |opts| < MaxOptions then Edited(opts + [BlankOption], None)
    else Edited(opts, Some(MaxOptionsWarning))
  }

  /** `options.filter((_, i) => i !== index)`. */
  function WithoutIndex(opts: seq<DraftOption>, index: int): (r: seq<DraftOption>)
    ensures 0 <= index < |opts| ==> r == opts[..index] + opts[index + 1..]
    ensures !(0 <= index < |opts|) ==> r == opts
  {
    if opts == [] then []
    else
      var front := opts[..|opts| - 1];
      var rest := WithoutIndex(front, index);
      if index == |opts| - 1 then
        front
      else
        assert 0 <= index < |front| ==> front[..index] + front[index + 1..] + [opts[|opts| - 1]] == opts[..index] + opts[index + 1..];
        assert opts == front + [opts[|opts| - 1]];
        rest + [opts[|opts| - 1]]
  }

  /**
   * `handleRemoveOption`: with more than two rows, the row at `index` goes
   * and the others keep their order (an index outside the list removes
   * nothing); with two rows a warning is shown.
   */
  function RemoveOption(opts: seq<DraftOption>, index: int): (r: Edited)
    ensures |opts| > MinOptions && 0 <= index < |opts| ==> r == Edited(opts[..index] + opts[index + 1..], None)
    ensures |opts| > MinOptions && !(0 <= index < |opts|) ==> r == Edited(opts, None)
    ensures |opts| <= MinOptions ==> r == Edited(opts, Some(MinOptionsWarning))
  {
    if |opts| > MinOptions then Edited(WithoutIndex(opts, index), None)
    else Edited(opts, Some(MinOptionsWarning))
  }

  /** `handleOptionChange`: only row `index` gets the new text; its flag and every other row stay. */
  function OptionChange(opts: seq<DraftOption>, index: nat, value: string): (r: seq<DraftOption>)
    requires index < |opts|
    ensures |r| == |opts| && r[index].text == value && r[index].isCorrect == opts[index].isCorrect
    ensures forall j :: 0 <= j < |opts| && j != index ==> r[j] == opts[j]
  {
    opts[index := opts[index].(text := value)]
  }

  /** `handleCorrectChange`: only row `index` gets the new flag. */
  function CorrectChange(opts: seq<DraftOption>, index: nat, isCorrect: bool): (r: seq<DraftOption>)
    requires index < |opts|
    ensures |r| == |opts| && r[index].isCorrect == isCorrect && r[index].text == opts[index].text
    ensures forall j :: 0 <= j < |opts| && j != index ==> r[j] == opts[j]
  {
    opts[index := opts[index].(isCorrect := isCorrect)]
  }

  /** The add and remove buttons a teacher can press. */
  datatype Edit = Add | Remove(index: int)

  function ApplyEdit(opts: seq<DraftOption>, e: Edit): seq<DraftOption> {
    match e
    case Add => AddOption(opts).options
    case Remove(i) => RemoveOption(opts, i).options
  }

  function Replay(opts: seq<DraftOption>, edits: seq<Edit>): seq<DraftOption> {
    if edits == [] then opts else ApplyEdit(Replay(opts, edits[..|edits| - 1]), edits[|edits| - 1])
  }

  /** Whatever buttons are pressed, from two rows the form keeps between two and six. */
  lemma {:induction false} ReplayKeepsBounds(opts: seq<DraftOption>, edits: seq<Edit>)
    requires MinOptions <= |opts| <= MaxOptions
    ensures MinOptions <= |Replay(opts, edits)| <= MaxOptions
  {
    if edits != [] {
      ReplayKeepsBounds(opts, edits[..|edits| - 1]);
    }
  }

  /** `Array.prototype.filter`: the elements `keep` accepts, in order, each as often as it occurs. */
  function Filter<T(!new)>(keep: T -> bool, s: seq<T>): (r: seq<T>)
    ensures |r| <= |s|
    ensures forall x :: x in r <==> x in s && keep(x)
    ensures |s| == 1 ==> r == if keep(s[0]) then s else []
  {
    if s == [] then []
    else
      var front := s[..|s| - 1];
      var last := s[|s| - 1];
      assert s == front + [last];
      Filter(keep, front) + if keep(last) then [last] else []
  }

  /** Filtering a list with one more element at its end filters that element on its own. */
  lemma FilterSnoc<T(!new)>(keep: T -> bool, s: seq<T>, x: T)
    ensures Filter(keep, s + [x]) == Filter(keep, s) + if keep(x) then [x] else []
  {
    assert (s + [x])[..|s + [x]| - 1] == s;
  }

  /**
   * `filter` works element by element: filtering two lists one after the
   * other gives the two filtered lists one after the other. With the
   * one-element case of `Filter`, this fixes the result exactly, order and
   * repetitions included.
   */
  lemma {:induction false} FilterAppend<T(!new)>(keep: T -> bool, a: seq<T>, b: seq<T>)
    ensures Filter(keep, a + b) == Filter(keep, a) + Filter(keep, b)
  {
    if b == [] {
      assert a + b == a;
    } else {
      var front, last := b[..|b| - 1], b[|b| - 1];
      var kept := if keep(last) then [last] else [];
      assert b == front + [last];
      assert a + b == (a + front) + [last];
      FilterSnoc(keep, a + front, last);
      FilterSnoc(keep, front, last);
      FilterAppend(keep, a, front);
      assert Filter(keep, a) + Filter(keep, front) + kept == Filter(keep, a) + (Filter(keep, front) + kept);
    }
  }

  /** A row counts when its text is not blank (`opt.text.trim()` is truthy). */
  predicate Filled(o: DraftOption) {
    Trim(o.text) != []
  }

  /** The rows whose trimmed text is not empty, in order (`validOptions`). */
  function ValidOptions(opts: seq<DraftOption>): (r: seq<DraftOption>)
    ensures |r| <= |opts|
    ensures forall x :: x in r <==> x in opts && Filled(x)
    ensures |opts| == 1 ==> r == if Filled(opts[0]) then opts else []
  {
    Filter(Filled, opts)
  }

  /** The rows kept from two lists one after the other are those kept from the first, then from the second. */
  lemma ValidOptionsAppend(a: seq<DraftOption>, b: seq<DraftOption>)
    ensures ValidOptions(a + b) == ValidOptions(a) + ValidOptions(b)
  {
    FilterAppend(Filled, a, b);
  }

  /** So two identical filled rows are both posted, and a form with them passes the count check. */
  lemma RepeatedRowsKept(x: DraftOption)
    requires Trim(x.text) != []
    ensures ValidOptions([x, x]) == [x, x]
  {
    FilterAppend(Filled, [x], [x]);
    assert [x] + [x] == [x, x];
    assert Filter(Filled, [x]) == [x];
  }

  /** The texts of the rows, as posted (`validOptions.map((opt) => opt.text)`): untrimmed. */
  function OptionTexts(opts: seq<DraftOption>): (r: seq<string>)
    ensures |r| == |opts| && forall i :: 0 <= i < |r| ==> r[i] == opts[i].text
  {
    if opts == [] then [] else OptionTexts(opts[..|opts| - 1]) + [opts[|opts| - 1].text]
  }

  /** What the form posts: the question as typed, the surviving texts and the duration; no flags. */
  datatype CreateRequest = CreateRequest(question: string, options: seq<string>, duration: int)

  /** The checks of `handleCreatePoll`, in order; the first that fails names the error shown. */
  function ValidateCreate(question: string, opts: seq<DraftOption>, duration: int): (r: Result<CreateRequest, string>)
    ensures r == Err(QuestionError) <==> Trim(question) == []
    ensures r == Err(OptionsError) <==> Trim(question) != [] && |ValidOptions(opts)| < MinOptions
    ensures r == Err(DurationError) <==>
      Trim(question) != [] && |ValidOptions(opts)| >= MinOptions && !(MinDuration <= duration <= MaxDuration)
    ensures r.Ok? ==>
      r.value == CreateRequest(question, OptionTexts(ValidOptions(opts)), duration)
      && MinDuration <= duration <= MaxDuration
  {
    if Trim(question) == [] then Err(QuestionError)
    else if |ValidOptions(opts)| < MinOptions then Err(OptionsError)
    else if duration < MinDuration || duration > MaxDuration then Err(DurationError)
    else Ok(CreateRequest(question, OptionTexts(ValidOptions(opts)), duration))
  }

  /** The request body the create route receives for a posted form. */
  function AsBody(req: CreateRequest): CreateBody {
    CreateBody(Some(req.question), Items(req.options), Some(req.duration))
  }

  /** What a form that passes the client's checks posts: a question and texts that are not blank. */
  lemma AcceptedFormFields(question: string, opts: seq<DraftOption>, duration: int)
    requires ValidateCreate(question, opts, duration).Ok?
    ensures var req := ValidateCreate(question, opts, duration).value;
      && Trim(req.question) != [] && req.question != [] && |req.options| >= MinOptions
      && (forall k :: 0 <= k < |req.options| ==> req.options[k] != [])
      && req.duration == duration && MinDuration <= duration <= MaxDuration
  {
    var req := ValidateCreate(question, opts, duration).value;
    var valid := ValidOptions(opts);
    assert req.options == OptionTexts(valid);
    forall k | 0 <= k < |req.options| ensures req.options[k] != [] {
      assert req.options[k] == valid[k].text;
      assert valid[k] in valid;
    }
  }

  /** With no poll active, a question that is not blank and texts that are not empty are stored. */
  lemma CreateStores(db: Db, question: string, texts: seq<string>, duration: int, now: int)
    requires !HasActive(db) && Trim(question) != [] && duration != 0
    requires forall k :: 0 <= k < |texts| ==> texts[k] != []
    ensures var out := Create(db, question, texts, Some(duration), now).1;
      out.Created? && out.poll.duration == duration && Texts(out.poll.options) == texts
  {
  }

  /**
   * A form that passes the client's checks also passes the route's request
   * check, and, with no poll active, is stored with the texts and the
   * duration as posted.
   */
  lemma AcceptedFormIsCreated(question: string, opts: seq<DraftOption>, duration: int, db: Db, now: int)
    requires ValidateCreate(question, opts, duration).Ok?
    requires !HasActive(db)
    ensures var req := ValidateCreate(question, opts, duration).value;
      && BodyAccepted(AsBody(req))
      && var out := Create(db, req.question, req.options, Some(req.duration), now).1;
         out.Created? && out.poll.duration == duration && Texts(out.poll.options) == req.options
  {
    var req := ValidateCreate(question, opts, duration).value;
    AcceptedFormFields(question, opts, duration);
    assert BodyAccepted(AsBody(req));
    CreateStores(db, req.question, req.options, req.duration, now);
  }
}
