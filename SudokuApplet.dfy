/**
 * The applet's grid codec and its submission gate. A grid travels as 81
 * characters in row-major order: the puzzle parameter is loaded into the
 * cells, making every cell whose character is above '0' fixed, and a
 * finished grid is read back with '0' for each empty cell. `sendSolution`
 * sends the grid only when every cell is filled and the email is valid.
 */
module SudokuApplet {
  import opened Wrappers
  import opened Grid
  import opened Validator
  import CgiApp
  import SudokuListener

  // ---------------------------------------------------------------------
  // Reading the grid.
  // ---------------------------------------------------------------------

  /** What `getCellContent` appends for one cell. */
  function Cell(t: string): string {
    if |t| == 0 then "0" else t
  }

  /** The cells' contents in order, '0' standing for an empty cell. */
  function Encoded(ts: seq<string>): string
    decreases |ts|
  {
    if ts == [] then "" else Encoded(ts[..|ts| - 1]) + Cell(ts[|ts| - 1])
  }

  /** The character one short cell contributes. */
  function CellChar(t: string): char
    requires |t| <= 1
  {
    if t == "" then '0' else t[0]
  }

  /** Cells of at most one character encode to one character each, in place. */
  lemma {:induction false} EncodedShort(ts: seq<string>)
    requires forall i :: 0 <= i < |ts| ==> |ts[i]| <= 1
    ensures |Encoded(ts)| == |ts|
    ensures forall i :: 0 <= i < |ts| ==> Encoded(ts)[i] == CellChar(ts[i])
  {
    if ts != [] {
      var init := ts[..|ts| - 1];
      EncodedShort(init);
      assert forall i :: 0 <= i < |init| ==> init[i] == ts[i];
    }
  }

  /** On a grid whose cells hold at most one character the encoding has exactly 81 characters. */
  lemma EncodedGrid(ts: seq<string>)
    requires |ts| == 81 && ShortTexts(ts)
    ensures |Encoded(ts)| == 81
    ensures forall p: Pos :: Encoded(ts)[Index(p)] == CellChar(ts[Index(p)])
  {
    assert forall i :: 0 <= i < 81 ==> |ts[i]| <= 1 by {
      forall i | 0 <= i < 81 ensures |ts[i]| <= 1 {
        assert Index(PosAt(i)) == i;
      }
    }
    EncodedShort(ts);
  }

  /** `getCellContent`: the nested loops appending each cell in row-major order. */
  method GetCellContent(b: Board) returns (s: string)
    requires b.Valid()
    ensures s == Encoded(b.texts)
  {
    var sb := "";
    var row := 0;
    while row < 9
      invariant 0 <= row <= 9
      invariant sb == Encoded(b.texts[..row * 9])
    {
      var col := 0;
      while col < 9
        invariant 0 <= col <= 9
        invariant sb == Encoded(b.texts[..row * 9 + col])
      {
        var text := b.Text(Coord(row, col));
        assert b.texts[..row * 9 + col + 1][..row * 9 + col] == b.texts[..row * 9 + col];
        if |text| == 0 {
          sb := sb + "0";
        } else {
          sb := sb + text;
        }
        col := col + 1;
      }
      row := row + 1;
    }
    assert b.texts[..81] == b.texts;
    s := sb;
  }

  // ---------------------------------------------------------------------
  // Loading a puzzle.
  // ---------------------------------------------------------------------

  /** `getGrid`: character row*9+col of the input goes to grid[row][col]. */
  method GetGrid(gridContent: string) returns (grid: array2<char>)
    requires |gridContent| >= 81
    ensures fresh(grid) && grid.Length0 == 9 && grid.Length1 == 9
    ensures forall row, col :: 0 <= row < 9 && 0 <= col < 9 ==> grid[row, col] == gridContent[row * 9 + col]
  {
    grid := new char[9, 9];
    var idx := 0;
    var row := 0;
    while row < 9
      invariant 0 <= row <= 9 && idx == row * 9
      invariant forall r, c :: 0 <= r < row && 0 <= c < 9 ==> grid[r, c] == gridContent[r * 9 + c]
    {
      var col := 0;
      while col < 9
        invariant 0 <= col <= 9 && idx == row * 9 + col
        invariant forall r, c :: 0 <= r < row && 0 <= c < 9 ==> grid[r, c] == gridContent[r * 9 + c]
        invariant forall c :: 0 <= c < col ==> grid[row, c] == gridContent[row * 9 + c]
      {
        grid[row, col] := gridContent[idx];
        idx := idx + 1;
        col := col + 1;
      }
      row := row + 1;
    }
  }

  /** The cell texts after loading s: a character above '0' becomes the cell's text, '0' and below leave it. */
  function Loaded(ts: seq<string>, s: string): (r: seq<string>)
    requires |ts| == 81 && |s| >= 81
    ensures |r| == 81
  {
    seq(81, i requires 0 <= i < 81 => if s[i] > '0' then [s[i]] else ts[i])
  }

  /** The editable mask after loading s: a cell given a character is fixed. */
  function Fixed(ed: seq<bool>, s: string): (r: seq<bool>)
    requires |ed| == 81 && |s| >= 81
    ensures |r| == 81
  {
    seq(81, i requires 0 <= i < 81 => if s[i] > '0' then false else ed[i])
  }

  /**
   * `setCellContent`: every cell whose character is above '0' gets that
   * character as its text and becomes fixed; there is no digit check.
   * Crash lists and flags are not touched.
   */
  method SetCellContent(b: Board, gridContent: string)
    requires b.Valid() && |gridContent| >= 81
    modifies b
    ensures b.Valid()
    ensures b.texts == Loaded(old(b.texts), gridContent)
    ensures b.editable == Fixed(old(b.editable), gridContent)
    ensures b.crashes == old(b.crashes) && b.invalid == old(b.invalid)
  {
    var grid := GetGrid(gridContent);
    var row := 0;
    while row < 9
      modifies b
      invariant 0 <= row <= 9 && b.Valid()
      invariant b.crashes == old(b.crashes) && b.invalid == old(b.invalid)
      invariant forall i :: 0 <= i < 81 ==> b.texts[i] == if i < row * 9 && gridContent[i] > '0' then [gridContent[i]] else old(b.texts)[i]
      invariant forall i :: 0 <= i < 81 ==> b.editable[i] == if i < row * 9 && gridContent[i] > '0' then false else old(b.editable)[i]
    {
      var col := 0;
      while col < 9
        modifies b
        invariant 0 <= col <= 9 && b.Valid()
        invariant b.crashes == old(b.crashes) && b.invalid == old(b.invalid)
        invariant forall i :: 0 <= i < 81 ==> b.texts[i] == if i < row * 9 + col && gridContent[i] > '0' then [gridContent[i]] else old(b.texts)[i]
        invariant forall i :: 0 <= i < 81 ==> b.editable[i] == if i < row * 9 + col && gridContent[i] > '0' then false else old(b.editable)[i]
      {
        if grid[row, col] > '0' {
          var i := Index(Coord(row, col));
          b.texts := b.texts[i := [grid[row, col]]];
          b.editable := b.editable[i := false];
        }
        col := col + 1;
      }
      row := row + 1;
    }
  }

  /** Cells as the key filter and the puzzle loader leave them: empty or one digit '1'..'9'. */
  predicate DigitCells(ts: seq<string>) {
    forall i :: 0 <= i < |ts| ==> |ts[i]| <= 1 && (ts[i] != "" ==> '1' <= ts[i][0] <= '9')
  }

  /** A grid string: 81 characters, each an ASCII digit. */
  predicate IsGridString(s: string) {
    |s| == 81 && forall i :: 0 <= i < 81 ==> '0' <= s[i] <= '9'
  }

  /** Loading a grid string into an empty grid and reading it back gives the string. */
  lemma LoadedThenEncoded(s: string)
    requires IsGridString(s)
    ensures Encoded(Loaded(seq(81, i => ""), s)) == s
  {
    var ts := Loaded(seq(81, i => ""), s);
    assert forall i :: 0 <= i < 81 ==> |ts[i]| <= 1;
    EncodedShort(ts);
  }

  /** Loading a grid string keeps every cell empty or a digit '1'..'9'. */
  lemma LoadedDigits(ts: seq<string>, s: string)
    requires |ts| == 81 && DigitCells(ts) && IsGridString(s)
    ensures DigitCells(Loaded(ts, s))
  {
  }

  /** Writing a filtered key into a cell keeps every cell empty or a digit '1'..'9'. */
  lemma KeyKeepsDigits(ts: seq<string>, tf: Pos, key: char)
    requires |ts| == 81 && DigitCells(ts)
    ensures DigitCells(ts[Index(tf) := SudokuListener.KeyText(key)])
  {
  }

  /** A grid of digit cells encodes to a grid string. */
  lemma EncodedDigits(ts: seq<string>)
    requires |ts| == 81 && DigitCells(ts)
    ensures IsGridString(Encoded(ts))
  {
    EncodedShort(ts);
  }

  /** The empty grid `initGrid` builds, the puzzle loaded into it, and the grid read back. */
  method LoadAndRead(s: string) returns (r: string)
    requires IsGridString(s)
    ensures r == s
  {
    var b := new Board();
    assert b.texts == seq(81, i => "") by {
      forall i | 0 <= i < 81 ensures b.texts[i] == "" {
        assert b.Text(PosAt(i)) == "";
      }
    }
    SetCellContent(b, s);
    r := GetCellContent(b);
    LoadedThenEncoded(s);
  }

  // ---------------------------------------------------------------------
  // The submission gate.
  // ---------------------------------------------------------------------

  /** Every cell has some text. */
  predicate Filled(ts: seq<string>) {
    forall i :: 0 <= i < |ts| ==> ts[i] != ""
  }

  /** `allCellsFilled`: the nested loops return false at the first empty cell. */
  method AllCellsFilled(b: Board) returns (r: bool)
    requires b.Valid()
    ensures r <==> Filled(b.texts)
    ensures !r ==> exists p: Pos :: b.Text(p) == ""
  {
    var row := 0;
    while row < 9
      invariant 0 <= row <= 9
      invariant forall i :: 0 <= i < row * 9 ==> b.texts[i] != ""
    {
      var col := 0;
      while col < 9
        invariant 0 <= col <= 9
        invariant forall i :: 0 <= i < row * 9 + col ==> b.texts[i] != ""
      {
        if |b.Text(Coord(row, col))| == 0 {
          return false;
        }
        col := col + 1;
      }
      row := row + 1;
    }
    return true;
  }

  /**
   * How the email goes into the request: as typed (the applet as written),
   * or form-encoded, so that the CGI decodes it back to what was typed.
   */
  datatype Quoting = Raw | FormEncoded

  /** The email as it goes into the request. */
  function Quoted(quoting: Quoting, email: string): string
    requires quoting == FormEncoded ==> CgiApp.IsAscii(email)
  {
    match quoting
    case Raw => email
    case FormEncoded => CgiApp.FormEncode(email)
  }

  /** The request's query, `email=<email>&solution=<grid>`. */
  function Query(quoting: Quoting, email: string, solution: string): string
    requires quoting == FormEncoded ==> CgiApp.IsAscii(email)
  {
    "email" + "=" + Quoted(quoting, email) + "&" + "solution" + "=" + solution
  }

  /** What pressing send does: an "Incomplete" or "Invalid email" dialog, or the browser shown a URL. */
  datatype Outcome = Incomplete | InvalidEmail | Show(url: string)

  /** The characters of a valid address are all ASCII. */
  lemma ValidEmailIsAscii(email: string)
    requires IsValidEmail(Some(email))
    ensures CgiApp.IsAscii(email)
  {
    ValidEmailChars(email);
  }

  /** The decision `sendSolution` makes for the cells, the typed email and the applet's outputURL. */
  function Submission(quoting: Quoting, ts: seq<string>, email: string, outputURL: string): (o: Outcome)
    ensures o.Show? <==> Filled(ts) && IsValidEmail(Some(email))
  {
    if !Filled(ts) then Incomplete
    else if !IsValidEmail(Some(email)) then InvalidEmail
    else
      ValidEmailIsAscii(email);
      Show(outputURL + "?" + Query(quoting, email, Encoded(ts)))
  }

  /**
   * `sendSolution`: the completeness check first, then the email check,
   * then the URL built from outputURL, the email and `getCellContent`.
   */
  method SendSolution(b: Board, email: string, outputURL: string, quoting: Quoting) returns (o: Outcome)
    requires b.Valid()
    ensures o == Submission(quoting, b.texts, email, outputURL)
  {
    var filled := AllCellsFilled(b);
    if !filled {
      return Incomplete;
    }
    if !IsValidEmail(Some(email)) {
      return InvalidEmail;
    }
    var solution := GetCellContent(b);
    ValidEmailIsAscii(email);
    var query := Query(quoting, email, solution);
    o := Show(outputURL + "?" + query);
  }
}
