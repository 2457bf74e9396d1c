/**
 * The name check of frontend/src/components/StudentJoin.jsx: `handleJoin`
 * trims the typed name, refuses it when it is empty or its `length` (in
 * UTF-16 code units) is below two, and otherwise uses the trimmed name
 * everywhere.
 */
module StudentJoin {
  import opened Wrappers
  import opened Text
  import opened PollModel
  import opened ResponseModel

  const EmptyNameError := "Please enter your name"
  const ShortNameError := "Name must be at least 2 characters"

  /** The checks of `handleJoin`: the trimmed name, or the error shown. */
  function ValidateName(name: string): (r: Result<string, string>)
    ensures r == Err(EmptyNameError) <==> Trim(name) == []
    ensures r == Err(ShortNameError) <==> Utf16Length(Trim(name)) == 1
    ensures r.Ok? <==> Utf16Length(Trim(name)) >= 2
    ensures r.Ok? ==> r.value == Trim(name)
  {
    var trimmed := Trim(name);
    if trimmed == [] then Err(EmptyNameError)
    else if Utf16Length(trimmed) < 2 then Err(ShortNameError)
    else Ok(trimmed)
  }

  /**
   * What an accepted join does: the name given to `setStudentName`, the
   * name sent with `studentJoin`, the name given to `onJoin` when the parent
   * passed one, and the welcome text.
   */
  datatype JoinEffects =
    | Refused(error: string)
    | Joined(storedName: string, sentName: string, callbackName: Option<string>, welcome: string)

  function HandleJoin(name: string, hasOnJoin: bool): (e: JoinEffects)
    ensures e.Refused? <==> ValidateName(name).Err?
    ensures e.Refused? ==> e.error == ValidateName(name).error
    ensures e.Joined? ==>
      var n := Trim(name);
      && e.storedName == n && e.sentName == n
      && e.callbackName == (if hasOnJoin then Some(n) else None)
      && e.welcome == "Welcome, " + n + "!"
  {
    match ValidateName(name)
    case Err(msg) => Refused(msg)
    case Ok(n) => Joined(n, n, if hasOnJoin then Some(n) else None, "Welcome, " + n + "!")
  }

  /**
   * An accepted name is at least two UTF-16 code units, has no surrounding blanks,
   * and is kept as is when the server trims it again, so a response saved
   * under it passes the schema and is keyed by exactly that name.
   */
  lemma AcceptedNameIsStable(name: string, pollId: PollId, optionIndex: int, now: int)
    requires ValidateName(name).Ok?
    ensures var n := ValidateName(name).value;
      && Utf16Length(n) >= 2 && n != [] && IsTrimmed(n) && Trim(n) == n
      && NewResponse(pollId, n, optionIndex, now).studentName == n
      && ResponsePassesSchema(NewResponse(pollId, n, optionIndex, now))
  {
    TrimFixesTrimmed(name);
    TrimIdempotent(name);
  }

  /** Names that differ only in surrounding blanks are accepted or refused together, as the same name. */
  lemma SurroundingBlanksIgnored(a: string, b: string)
    requires Trim(a) == Trim(b)
    ensures ValidateName(a) == ValidateName(b)
  {
  }

  /**
   * A one-character name is refused exactly when that character is a single
   * UTF-16 code unit: a character above U+FFFF, such as an emoji, has
   * `length` 2 and is accepted on its own.
   */
  lemma SingleCharacterName(c: char)
    requires !IsJsWhitespace(c)
    ensures ValidateName([c]) == (if c as int > 0xFFFF then Ok([c]) else Err(ShortNameError))
  {
    assert TrimStart([c]) == [c];
    assert TrimEnd([c]) == [c];
    assert Utf16Length([c]) == Utf16Length([]) + (if c as int > 0xFFFF then 2 else 1);
  }
}
