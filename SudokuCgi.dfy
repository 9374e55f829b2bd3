/**
 * The `sudoku` CGI program: it reads the form, checks the email and then
 * the solution, and only when both pass appends the line
 * `email + " " + solution` to the solutions file. The file is a string
 * that only grows; whether it can be opened is a parameter.
 */
module SudokuCgi {
  import opened Wrappers
  import opened Strings
  import opened Validator
  import opened CgiApp
  import opened SudokuApplet

  /** `isValidSolution`: null is not valid; `[\d]{81}` matches exactly 81 ASCII digits, '0' included. */
  predicate IsValidSolution(solution: Option<string>) {
    solution.Some? && IsGridString(solution.value)
  }

  /** Null is rejected, 81 zeros are accepted, 80 digits and a letter among digits are not. */
  lemma SolutionExamples(zeros: string, short: string, lettered: string)
    requires zeros == seq(81, i => '0') && short == seq(80, i => '5')
    requires lettered == seq(81, i => if i == 40 then 'a' else '1')
    ensures !IsValidSolution(None)
    ensures IsValidSolution(Some(zeros))
    ensures !IsValidSolution(Some(short)) && !IsValidSolution(Some(lettered))
  {
    assert lettered[40] == 'a';
  }

  /** A grid whose cells are empty or digits, as the applet keeps it, reads back as a string the program accepts. */
  lemma AppletGridIsSolution(ts: seq<string>)
    requires |ts| == 81 && DigitCells(ts)
    ensures IsValidSolution(Some(Encoded(ts)))
  {
    EncodedDigits(ts);
  }

  /** The line appended for a submission. */
  function Line(email: string, solution: string): string {
    email + " " + solution + "\n"
  }

  /** A line written for an accepted email splits back at its first space into the email and the solution. */
  lemma LineSplits(email: string, solution: string)
    requires IsValidEmail(Some(email))
    ensures IndexOf(Line(email, solution), ' ') == |email|
    ensures Line(email, solution)[..|email|] == email
    ensures Line(email, solution)[|email| + 1..|Line(email, solution)| - 1] == solution
  {
    ValidEmailChars(email);
    var l := Line(email, solution);
    assert l[|email|] == ' ';
    assert l[..|email|] == email;
    assert forall k :: 0 <= k < |email| ==> l[k] != ' ' by {
      forall k | 0 <= k < |email| ensures l[k] != ' ' {
        assert l[k] == email[k];
      }
    }
    assert l[|email| + 1..|l| - 1] == solution;
  }

  /** The solutions file: the lines appended so far. */
  class SolutionsFile {
    var contents: string

    constructor (contents: string)
      ensures this.contents == contents
    {
      this.contents := contents;
    }

    /**
     * `appendFile`: one line `email + " " + solution`. `writable` says whether
     * the file could be opened for appending, the only step that throws the
     * IOException (sudoku.java:73); the file is then left as it was. Errors
     * while writing are swallowed by the `PrintWriter` and are not modelled.
     */
    method AppendFile(email: string, solution: string, writable: bool) returns (ok: bool)
      modifies this
      ensures ok == writable
      ensures contents == old(contents) + if ok then Line(email, solution) else ""
    {
      if !writable {
        return false;
      }
      contents := contents + Line(email, solution);
      return true;
    }
  }

  /** The page the program prints, or a crash when reading the form throws. */
  datatype Page = Crashed | InvalidEmailPage | InvalidSolutionPage | ErrorPage | ThankYouPage

  /** The page shown and the line appended, if any. */
  datatype Response = Response(page: Page, appended: Option<string>)

  /** What `main` does for a parsed form (None: parsing threw) and a file that can or cannot be opened. */
  function Respond(form: Option<map<string, string>>, writable: bool): Response {
    match form
    case None => Response(Crashed, None)
    case Some(m) =>
      var email := Lookup(m, "email");
      var solution := Lookup(m, "solution");
      if !IsValidEmail(email) then Response(InvalidEmailPage, None)
      else if !IsValidSolution(solution) then Response(InvalidSolutionPage, None)
      else if !writable then Response(ErrorPage, None)
      else Response(ThankYouPage, Some(Line(email.value, solution.value)))
  }

  /**
   * `main`: read the form, check the email, then the solution, then append.
   * The file gains exactly the line the response names.
   */
  method Run(input: Option<string>, file: SolutionsFile, writable: bool) returns (page: Page)
    modifies file
    ensures page == Respond(ParsedQuery(map[], input), writable).page
    ensures file.contents == old(file.contents) +
      match Respond(ParsedQuery(map[], input), writable).appended
      case None => ""
      case Some(line) => line
  {
    var app := new CgiApp();
    var parsed := app.ParseQuery(input);
    if !parsed {
      return Crashed;
    }
    var email := app.Get("email");
    if !IsValidEmail(email) {
      return InvalidEmailPage;
    }
    var solution := app.Get("solution");
    if !IsValidSolution(solution) {
      return InvalidSolutionPage;
    }
    var ok := file.AppendFile(email.value, solution.value, writable);
    if !ok {
      return ErrorPage;
    }
    return ThankYouPage;
  }

  /**
   * A line is appended exactly when the form was read, the email is valid,
   * the solution is valid and the file opened; it is then the email, a
   * space and the solution, and the page says thank you.
   */
  lemma AppendsOnlyValid(form: Option<map<string, string>>, writable: bool)
    ensures Respond(form, writable).appended.Some? <==>
      form.Some? && IsValidEmail(Lookup(form.value, "email")) && IsValidSolution(Lookup(form.value, "solution")) && writable
    ensures Respond(form, writable).appended.Some? <==> Respond(form, writable).page == ThankYouPage
    ensures Respond(form, writable).appended.Some? ==>
      Respond(form, writable).appended.value == Line(Lookup(form.value, "email").value, Lookup(form.value, "solution").value)
  {
  }

  /** An invalid email is reported whatever solution comes with it, before the solution is looked at. */
  lemma EmailCheckedFirst(m: map<string, string>, solution: string, writable: bool)
    requires !IsValidEmail(Lookup(m, "email"))
    ensures Respond(Some(m), writable) == Response(InvalidEmailPage, None)
    ensures Respond(Some(m["solution" := solution]), writable) == Response(InvalidEmailPage, None)
  {
    assert Lookup(m["solution" := solution], "email") == Lookup(m, "email");
  }

  // ---------------------------------------------------------------------
  // From the applet to the program.
  // ---------------------------------------------------------------------

  /** The names the applet uses are sent as they are. */
  lemma FieldNames()
    ensures PlainName("email") && PlainName("solution")
  {
  }

  /**
   * With the email form-encoded, every submission the applet lets through
   * arrives intact: the program appends exactly the typed email and the
   * grid read from the cells.
   */
  lemma EncodedSubmissionArrives(ts: seq<string>, email: string, outputURL: string)
    requires |ts| == 81 && DigitCells(ts)
    requires Submission(FormEncoded, ts, email, outputURL).Show?
    requires IsAscii(email)  // implied by the email check (ValidEmailIsAscii)
    ensures Respond(ParsedQuery(map[], Some(Query(FormEncoded, email, Encoded(ts)))), true)
         == Response(ThankYouPage, Some(Line(email, Encoded(ts))))
  {
    var solution := Encoded(ts);
    EncodedDigits(ts);
    forall k | 0 <= k < |solution| ensures Unreserved(solution[k]) {
      assert '0' <= solution[k] <= '9';
    }
    EncodeUnreserved(solution);
    FieldNames();
    ParsedTwoFields("email", email, "solution", solution);
    var m := map["email" := email, "solution" := solution];
    assert Lookup(m, "email") == Some(email) && Lookup(m, "solution") == Some(solution);
  }

  /**
   * As written, the applet sends the email as typed. Text without '%' or a
   * delimiter arrives with each '+' turned into a space.
   */
  lemma RawSubmissionArrives(email: string, solution: string)
    requires forall k :: 0 <= k < |email| ==> email[k] != '%' && !IsDelimiter(email[k])
    requires IsGridString(solution)
    ensures ParsedQuery(map[], Some(Query(Raw, email, solution)))
         == Some(map["email" := Replace(email, '+', ' '), "solution" := solution])
  {
    FieldNames();
    RawTwoFields("email", email, "solution", solution);
    ReplaceAbsent(solution, '+', ' ');
  }

  /**
   * As written, an email with a '+' before its '@' and no '%' or delimiter
   * reaches the program with a space in place of the '+', and is rejected.
   */
  lemma RawPlusArrivesBroken(ts: seq<string>, email: string, i: int, writable: bool)
    requires |ts| == 81 && DigitCells(ts)
    requires 0 <= i < |email| && email[i] == '+' && i < IndexOf(email, '@')
    requires forall k :: 0 <= k < |email| ==> email[k] != '%' && !IsDelimiter(email[k])
    ensures Respond(ParsedQuery(map[], Some(Query(Raw, email, Encoded(ts)))), writable) == Response(InvalidEmailPage, None)
  {
    EncodedDigits(ts);
    RawSubmissionArrives(email, Encoded(ts));
    PlusAsSpaceRejected(email, i);
    var m := map["email" := Replace(email, '+', ' '), "solution" := Encoded(ts)];
    assert Lookup(m, "email") == Some(Replace(email, '+', ' '));
  }

  /**
   * As written, an accepted email with a '+' and no '%' is sent, yet the
   * program rejects it: the applet showed the URL and nothing is appended.
   */
  lemma RawPlusIsRejected(ts: seq<string>, email: string, outputURL: string, i: int, writable: bool)
    requires |ts| == 81 && DigitCells(ts)
    requires Submission(Raw, ts, email, outputURL).Show?
    requires 0 <= i < |email| && email[i] == '+'
    requires forall k :: 0 <= k < |email| ==> email[k] != '%'
    ensures Respond(ParsedQuery(map[], Some(Query(Raw, email, Encoded(ts)))), writable) == Response(InvalidEmailPage, None)
  {
    ValidEmailChars(email);
    PlusBeforeAt(email, i);
    RawPlusArrivesBroken(ts, email, i, writable);
  }

  /** "a.b+c@example.co" is accepted by the applet, so a '+' in an address is no corner case. */
  lemma PlusAddressLost(ts: seq<string>, email: string, outputURL: string, writable: bool)
    requires |ts| == 81 && DigitCells(ts) && Filled(ts)
    requires email == "a.b+c" + "@" + "example" + "." + "co"
    ensures Submission(Raw, ts, email, outputURL).Show?
    ensures Respond(ParsedQuery(map[], Some(Query(Raw, email, Encoded(ts)))), writable) == Response(InvalidEmailPage, None)
  {
    AcceptedExamples();
    assert email[3] == '+';
    assert forall k :: 0 <= k < |email| ==> email[k] != '%';
    RawPlusIsRejected(ts, email, outputURL, 3, writable);
  }
}
