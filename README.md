# Sudoku applet and CGI submission: a verified model

A web Sudoku in Java. An applet shows a 9x9 grid of text fields. A key
listener on each field checks the typed digit against its row, its column
and its 3x3 subgrid, keeps a list of the cells it "crashes" with, and colours
conflicting cells. A completed grid goes to a CGI program together with the
player's email. The program decodes the form, validates the email and the
81-digit solution, and appends `email solution` to a solutions file.

The model follows the source file by file.

- `Grid` is the 9x9 board the applet builds in `initGrid`.
  - It is a class with one table per cell attribute: the text, whether the
    cell is editable, the crash list and the invalid flag.
  - The Swing background colours become that invalid flag.
  - Each listener's `ArrayList` of crashes is a `seq<Pos>`, so order and
    duplicates are kept. The multiset view is `Count`.
  - `ArrayList.remove(Object)` is `RemoveFirst`.
- `SudokuListener` models `keyTyped` and everything it calls.
  - The listener's cell is the parameter `tf`.
  - The subgrid scan's column bound is a parameter, `ScanMode`:
    - `AsWritten` is the bound as written, `c < row + 3`;
    - `Intended` is the 3x3 block, `c < col + 3`.
  - The model proves three things about the crash lists:
    - every edit keeps them a symmetric, irreflexive relation, under either
      bound;
    - every cell's flag keeps agreeing with whether its list is empty;
    - with the intended bound, the lists keep recording exactly the
      conflicts of the grid.
  - Arrow-key navigation down and up a column is modelled too.
- `SudokuApplet` has three parts:
  - the 81-character row-major grid codec (`getCellContent`, `getGrid`,
    `setCellContent`), with its round trip;
  - the completeness check;
  - the decision `sendSolution` makes.
  - The applet's `outputURL` parameter and the typed email are inputs.
- `CgiApp` is the form decoder.
  - `StringTokenizer` on `&` and newline.
  - `put`:
    - `+` becomes a space;
    - the token splits at the first `=`;
    - the parts are unescaped;
    - a repeated name overwrites the earlier value.
  - `unescape` decodes `%XY` escapes, including the swallowed
    `NumberFormatException` (the byte stays 0).
  - A `%` with fewer than two characters after it throws. The model returns
    `None` for that case.
  - The constructor's `parseQuery` takes its input as a parameter:
    - `Some(s)` is the query string or the POST body;
    - `None` is a null input, which makes the tokenizer throw.
  - A form-encoder and its round trip are included, so that the corrected
    submission (see Findings) can be stated.
- `Validator` states the language of
  `\b[\w.%+-]+@[a-zA-Z0-9.-]+\.[a-zA-Z]{2,6}\b` as the existence of two
  split points. `MatchesEmail`, the match `isValidEmail` performs, is proved
  to hold of exactly that language.
- `SudokuCgi` models `sudoku.java`.
  - `isValidSolution` is modelled.
  - `main` is `Run`: email check, then solution check, then append.
  - The solutions file is a class whose contents only grow. Whether the file
    can be opened is a parameter.
  - The module also proves what happens end to end to a submission the
    applet sends.

## Model

| member | source | states |
|---|---|---|
| Grid.Board.constructor | Source/SudokuApplet.java:56-65 | the fresh grid: every text empty, every cell editable and valid, every crash list empty; the relation and flag invariants hold |
| Grid.Index | Source/SudokuApplet.java:122-126 | the row-major index `row*9+col` of a cell is below 81 and maps back to that cell |
| Grid.RemoveFirstCount | Source/SudokuListener.java:91 | `remove(tf)` on a list holding tf takes out exactly one copy of tf and leaves every other element's count alone |
| Grid.DropAllIsWithout | Source/SudokuListener.java:88-96 | removing tf once per occurrence leaves exactly the other entries, in order |
| Grid.WithoutCount | Source/SudokuListener.java:88-96 | a list with tf withdrawn holds no tf and every other cell as often as before |
| SudokuListener.KeyText | Source/SudokuListener.java:49-57 | the text written is non-empty iff the key is '1'..'9', and it is then exactly that one character |
| SudokuListener.KeyTyped | Source/SudokuListener.java:47-61 | the cell gets the filtered key; the crash lists stay a symmetric, irreflexive relation that every flag agrees with; tf's list is what the scans found and every other list lost its copies of tf and gained one per time it was found; tf is invalid iff the scans found something; a key outside '1'..'9' leaves tf with no crashes and valid; with the intended bound the lists keep recording exactly the grid's conflicts |
| SudokuListener.KeyKeepsShort | Source/SudokuListener.java:49-57 | writing a filtered key keeps every text empty or one character |
| SudokuListener.SetColor | Source/SudokuListener.java:69-82 | reset, rescan, then tf's flag is set to whether a crash was found; the invariants hold again for every cell, tf included |
| SudokuListener.ResetCrashes | Source/SudokuListener.java:87-97 | tf's list becomes empty, every other list loses every copy of tf, a former partner turns valid exactly when its list ran empty, and every other flag is unchanged |
| SudokuListener.Uncrash | Source/SudokuListener.java:89-94 | one turn of the reset loop: `remove(tf)` from f's list, and f is made valid iff that list is now empty |
| SudokuListener.ProgressComplete | Source/SudokuListener.java:88-95 | once every entry of tf's list is visited, each partner has lost every copy of tf |
| SudokuListener.HasCrashes | Source/SudokuListener.java:105-107 | `crashes()` is true iff the cell's list has an element |
| SudokuListener.IsValid | Source/SudokuListener.java:118-127 | all three scans run; the lists gain the found crashes on both sides, the found cells turn invalid, and the result is true iff nothing was found; the relation is preserved |
| SudokuListener.ValidInRow | Source/SudokuListener.java:141-153 | records a crash with every other cell of tf's row holding the same non-empty text, and returns false iff there is one |
| SudokuListener.ValidInCol | Source/SudokuListener.java:167-179 | the same for tf's column |
| SudokuListener.ValidInSubgrid | Source/SudokuListener.java:193-211 | the same for the cells the subgrid loops visit, from (tfrow/3*3, tfcol/3*3), with the column bound of the chosen mode |
| SudokuListener.ValidInSubgridRow | Source/SudokuListener.java:200-208 | one pass of the inner loop over a row, up to the bound; it does nothing when the bound is not above the first column |
| SudokuListener.CheckCell | Source/SudokuListener.java:145-150 | a cell other than tf is a hit iff it holds tf's non-empty text, and a hit is recorded on both sides |
| SudokuListener.SetValid | Source/SudokuListener.java:221-226 | f's flag becomes valid, nothing else changes |
| SudokuListener.SetInvalid | Source/SudokuListener.java:236-244 | f is appended to tf's list, tf to f's, and f becomes invalid |
| SudokuListener.ColumnBound | Source/SudokuListener.java:199-200 | the column bound never exceeds 9 under either mode, so the scan stays on the grid |
| SudokuListener.BlockRow | Source/SudokuListener.java:196 | the subgrid's first row is a multiple of 3, at most 6, and within 3 of tf's row |
| SudokuListener.BlockCol | Source/SudokuListener.java:198 | the same for the first column |
| SudokuListener.InBlock | Source/SudokuListener.java:196-200 | the 3x3 square from the block's first row and column is exactly tf's block |
| SudokuListener.RowHitsCount | Source/SudokuListener.java:143-151 | a row scan finds each other cell of its stretch holding the text exactly once, and nothing else |
| SudokuListener.ColHitsCount | Source/SudokuListener.java:169-177 | the same for a column scan |
| SudokuListener.BlockHitsCount | Source/SudokuListener.java:199-209 | the nested loops find each other cell of the rectangle holding the text exactly once |
| SudokuListener.RowHitsOfEmpty | Source/SudokuListener.java:147 | a row scan for the empty text finds nothing |
| SudokuListener.ColHitsOfEmpty | Source/SudokuListener.java:173 | a column scan for the empty text finds nothing |
| SudokuListener.BlockHitsOfEmpty | Source/SudokuListener.java:204 | a subgrid scan for the empty text finds nothing |
| SudokuListener.EmptyEditFindsNothing | Source/SudokuListener.java:118-127 | when the edited cell is empty, none of the three scans records a crash, under either bound |
| SudokuListener.KeyFindsNothing | Source/SudokuListener.java:54-58 | a key outside '1'..'9' empties the cell, and the scans then find nothing |
| SudokuListener.IntendedSubgridIsBlock | Source/SudokuListener.java:193-211 | with the bound `col + 3`, the subgrid scan finds exactly the other cells of tf's 3x3 block that hold the text |
| SudokuListener.DiagonalBlocksAgree | Source/SudokuListener.java:200 | when tfrow/3 == tfcol/3 the bound as written and the intended one find the same cells |
| SudokuListener.Found | Source/SudokuListener.java:118-127 | the cells the row, column and subgrid scans find for tf's text, in the order the loops visit them; FoundTally, FoundCount and FoundIsConflicts state what it holds |
| SudokuListener.FoundTally | Source/SudokuListener.java:118-127 | under either bound, how often the three scans find a cell: once for the shared row, once for the shared column, once if it is in the rectangle the subgrid loops cover; only cells holding tf's text, never tf |
| SudokuListener.FoundAvoidsEdited | Source/SudokuListener.java:145-146 | the scans skip the edited cell, so it is never in its own list |
| SudokuListener.FoundCount | Source/SudokuListener.java:118-127 | with the intended bound, a cell is found once per unit it shares with tf, if it holds tf's text |
| SudokuListener.FoundIsConflicts | Source/SudokuListener.java:118-127 | with the intended bound, the scans find exactly tf's conflicts |
| SudokuListener.AsWrittenMissesBlock | Source/SudokuListener.java:200 | as written, the scans for (0,6) never find (1,7) in its block, although it holds the same text |
| SudokuListener.AsWrittenStraysOutOfBlock | Source/SudokuListener.java:200 | as written, the scans for (3,0) find (4,4), which shares no row, column or block with it and so is no conflict |
| SudokuListener.AsWrittenIsBlockIff | Source/SudokuListener.java:200 | the as-written subgrid loops cover exactly tf's block (other than tf) iff tfrow/3 == tfcol/3; off the diagonal some cell lies in one and not the other |
| SudokuListener.AsWrittenCountsIff | Source/SudokuListener.java:193-205 | as written, a cell holding tf's text is found as often as it conflicts with tf iff the loops' rectangle and tf's block agree on it |
| SudokuListener.ConsistentIsRelation | Source/SudokuListener.java:236-239 | lists that record the conflicts are symmetric and irreflexive |
| SudokuListener.ColourShowsConflict | Source/SudokuListener.java:69-82 | when the lists record the conflicts and the flags agree with them, a cell is invalid iff a peer holds its non-empty text |
| SudokuListener.EmptyIsConsistent | Source/SudokuApplet.java:56-65 | the empty grid with empty lists records its conflicts |
| SudokuListener.EditKeepsConsistent | Source/SudokuListener.java:47-61 | if the lists recorded the old grid's conflicts and the scans find tf's conflicts, the lists after the edit record the new grid's conflicts |
| SudokuListener.PartnerCount | Source/SudokuListener.java:87-97 | after an edit a partner's list holds tf once per time it was found, and every other entry as before |
| SudokuListener.RecordIsScanned | Source/SudokuListener.java:236-244 | repeated `setInvalid` calls give tf's list the hits in order, every other list one tf per hit, and exactly the hit cells the invalid flag |
| SudokuListener.RecordThen | Source/SudokuListener.java:123-125 | two scans in a row record what they found one after the other |
| SudokuListener.ScannedSymmetric | Source/SudokuListener.java:236-239 | recording crashes keeps the lists symmetric, whatever cells the scan hit |
| SudokuListener.ScannedIrreflexive | Source/SudokuListener.java:145-146 | a scan that skips tf keeps the lists irreflexive |
| SudokuListener.ScannedKeeps | Source/SudokuListener.java:236-244 | recording crashes with cells other than tf keeps the relation and every flag other than tf's in agreement |
| SudokuListener.ResetEstablishes | Source/SudokuListener.java:87-97 | the cleared lists are still a relation, and every flag other than tf's agrees with its list |
| SudokuListener.ColourAfterScan | Source/SudokuListener.java:70-81 | setting tf's flag to whether the scans found something completes the agreement |
| SudokuListener.SelectFieldBelow | Source/SudokuListener.java:278-288 | the focus moves to the first editable cell going down the same column, wrapping from row 8 to row 0, and back to tf if no other cell is editable |
| SudokuListener.SelectFieldAbove | Source/SudokuListener.java:298-308 | the same going up, wrapping from row 0 to row 8 |
| SudokuListener.AboveUndoesBelow | Source/SudokuListener.java:278-308 | from an editable cell, the up arrow returns to where the down arrow came from, and the other way round |
| SudokuListener.RowBelow | Source/SudokuListener.java:282-286 | the row d steps down, wrapping from row 8 to row 0, is on the grid |
| SudokuListener.RowAbove | Source/SudokuListener.java:302-306 | the row d steps up, wrapping from row 0 to row 8, is on the grid |
| SudokuApplet.GetCellContent | Source/SudokuApplet.java:101-112 | the cells' texts in row-major order, '0' for each empty cell |
| SudokuApplet.Encoded | Source/SudokuApplet.java:101-112 | the grid read back: each cell's text in row-major order, "0" for an empty one; EncodedShort, EncodedGrid and LoadedThenEncoded state its properties |
| SudokuApplet.EncodedShort | Source/SudokuApplet.java:101-112 | cells of at most one character encode to one character each, in order |
| SudokuApplet.EncodedGrid | Source/SudokuApplet.java:101-112 | a grid of single-character cells encodes to exactly 81 characters, character `row*9+col` coming from that cell |
| SudokuApplet.GetGrid | Source/SudokuApplet.java:120-129 | a fresh 9x9 array with character `row*9+col` of the input at `[row, col]` |
| SudokuApplet.SetCellContent | Source/SudokuApplet.java:138-149 | every cell whose character is above '0' gets that character and becomes fixed; the others, crash lists and flags are unchanged |
| SudokuApplet.LoadedThenEncoded | Source/SudokuApplet.java:101-149 | loading an 81-digit string into the empty grid and reading it back gives the string |
| SudokuApplet.LoadAndRead | Source/SudokuApplet.java:101-149 | the same, run on a fresh board |
| SudokuApplet.LoadedDigits | Source/SudokuApplet.java:138-149 | loading digits into a grid of digit cells keeps every cell empty or a digit |
| SudokuApplet.KeyKeepsDigits | Source/SudokuListener.java:49-57 | a typed key, filtered, keeps every cell empty or a digit 1-9, as the CGI's solution check needs |
| SudokuApplet.EncodedDigits | Source/SudokuApplet.java:101-112 | a grid of empty or digit cells reads back as 81 ASCII digits |
| SudokuApplet.AllCellsFilled | Source/SudokuApplet.java:210-216 | true iff every one of the 81 texts is non-empty; when false, some cell is empty |
| SudokuApplet.Submission | Source/SudokuApplet.java:165-183 | a URL is shown iff every cell is filled and the email is valid; the URL is `outputURL?email=<email>&solution=<grid>` |
| SudokuApplet.SendSolution | Source/SudokuApplet.java:165-183 | completeness first, then the email, then the URL from the cells; the result is `Submission` |
| SudokuApplet.ValidEmailIsAscii | Source/Validator.java:4 | an accepted address is ASCII |
| Strings.IndexOf | Source/CgiApp.java:67 | the first position of the character, or -1 when it does not occur |
| Strings.Replace | Source/CgiApp.java:97 | every occurrence replaced, every other character and the length kept |
| CgiApp.HexDigit | Source/CgiApp.java:78 | a hex digit's value is below 16 |
| CgiApp.ParseHex | Source/CgiApp.java:78 | what `Integer.parseInt(XY, 16)` yields: a value in -15..255, or nothing |
| CgiApp.EscapeChar | Source/CgiApp.java:75-82 | the escape decodes to a single byte-sized character |
| CgiApp.BadEscapeIsZero | Source/CgiApp.java:75-80 | an escape that does not parse decodes to character 0 |
| CgiApp.Unescaped | Source/CgiApp.java:61-92 | the decoding `unescape` computes, None where `substring` throws; UnescapedPlain, UnescapedEscape and UnescapedShort state its cases |
| CgiApp.Unescape | Source/CgiApp.java:61-92 | the loop computes `Unescaped`: the text between escapes copied in order, each `%XY` replaced by its byte, `None` when a '%' has fewer than two characters after it |
| CgiApp.UnescapedPlain | Source/CgiApp.java:67-87 | text without '%' is copied unchanged ahead of the rest |
| CgiApp.UnescapedEscape | Source/CgiApp.java:69-85 | a leading `%XY` becomes its byte ahead of the rest |
| CgiApp.UnescapedShort | Source/CgiApp.java:70-73 | a '%' with fewer than two characters after it makes the decoding fail |
| CgiApp.RawDecode | Source/CgiApp.java:97-104 | text without '%' decodes to itself with '+' turned into spaces |
| CgiApp.PlusIsSpace | Source/CgiApp.java:97 | "+" decodes to a space |
| CgiApp.EscapedPlus | Source/CgiApp.java:97-104 | "%2B" decodes to '+', not to a space |
| CgiApp.FormEncode | Source/SudokuApplet.java:173-174 | the encoding the email needs: it holds no '&', newline or '=' |
| CgiApp.EncodeUnreserved | Source/SudokuApplet.java:173-174 | digits and other unreserved text encode to themselves |
| CgiApp.FormRoundTrip | Source/CgiApp.java:94-108 | decoding the form encoding of ASCII text gives the text back |
| CgiApp.DecodeChar | Source/CgiApp.java:61-104 | one encoded character decodes back to itself |
| CgiApp.DelimiterAt | Source/CgiApp.java:56 | the first '&' or newline, or the length when there is none |
| CgiApp.Tokens | Source/CgiApp.java:56-58 | `new StringTokenizer(input, "&\n")`: the maximal non-empty runs without '&' or newline, in order; TokensAreTokens, TokensOfWord, TokensOfPair and TokensSplit state its properties |
| CgiApp.TokensAreTokens | Source/CgiApp.java:56-58 | the tokenizer yields only non-empty tokens without a delimiter |
| CgiApp.TokensOfWord | Source/CgiApp.java:56-58 | a token alone is the one token |
| CgiApp.TokensOfPair | Source/CgiApp.java:56-58 | two tokens around one delimiter come out as those two, in order |
| CgiApp.TokensSplit | Source/CgiApp.java:56-58 | cutting the input at any delimiter splits the token list there: the tokens of the whole are those of the left part followed by those of the right |
| CgiApp.EmptyTokensSkipped | Source/CgiApp.java:56 | runs of delimiters and a trailing delimiter yield no empty token |
| CgiApp.Stored | Source/CgiApp.java:94-108 | the table after `put` of one token, None when `put` throws; StoredPair, StoredNothing and Overwrites state its cases |
| CgiApp.StoredPair | Source/CgiApp.java:94-108 | a token with a non-empty name free of '=' stores the decoded name mapped to the decoded value, the value keeping any later '='; if either fails to decode, `put` throws |
| CgiApp.StoredNothing | Source/CgiApp.java:99-100 | a token whose first '=' is missing or leads it leaves the table unchanged |
| CgiApp.ParsedPairs | Source/CgiApp.java:56-58 | two tokens are stored in order |
| CgiApp.ParsedAppend | Source/CgiApp.java:57-58 | storing a token list is storing its first part and then, unless that threw, its second part into the resulting table |
| CgiApp.ParsedQuerySplit | Source/CgiApp.java:56-58 | parsing an input with a delimiter in it is parsing the left part and then the right part into the resulting table |
| CgiApp.Overwrites | Source/CgiApp.java:106 | a repeated name keeps the later value |
| CgiApp.ParsedTwoPairs | Source/CgiApp.java:56-108 | an encoded two-field form parses to the two original pairs |
| CgiApp.PlainNameDecodes | Source/CgiApp.java:94-108 | a name of unreserved characters decodes to itself |
| CgiApp.ParsedTwoFields | Source/CgiApp.java:56-108 | plain names with encoded values parse to the names mapped to the original values |
| CgiApp.RawTwoFields | Source/CgiApp.java:56-108 | raw values without '%' or a delimiter parse to those values with '+' turned into spaces |
| CgiApp.CgiApp.constructor | Source/CgiApp.java:20-24 | the table starts empty |
| CgiApp.CgiApp.Put | Source/CgiApp.java:94-108 | the table becomes `Stored` of the token, or `put` throws and the table is unchanged |
| CgiApp.CgiApp.ParseQuery | Source/CgiApp.java:56-58 | `put` on every token in order gives `ParsedQuery`; a null input or a throwing `put` fails |
| CgiApp.Lookup | Source/CgiApp.java:117-119 | a value iff the key is in the table, and then the stored one |
| CgiApp.CgiApp.Get | Source/CgiApp.java:117-119 | a value iff the key is in the table, and then the stored one |
| CgiApp.CgiApp.GetCheckbox | Source/CgiApp.java:129-131 | true iff `get(key)` has a value |
| Validator.LastIndexOf | Source/Validator.java:4 | the last position of the character, or -1 |
| Validator.FirstAt | Source/Validator.java:4 | an '@' with only local-part characters before it is the first '@' |
| Validator.LastDot | Source/Validator.java:4 | a '.' with only letters after it is the last '.' |
| Validator.MatchesEmail | Source/Validator.java:4 | the whole-string match of the email pattern, split at the first '@' and the last '.'; MatchesEmailIsLanguage proves it is the pattern's language |
| Validator.IsValidEmail | Source/Validator.java:16-18 | `isValidEmail`: not null and a whole match; IsValidEmailIsLanguage, Rejections and AcceptedExamples state its behaviour |
| Validator.MatchesEmailIsLanguage | Source/Validator.java:4 | splitting at the first '@' and the last '.' accepts exactly the pattern's language |
| Validator.IsValidEmailIsLanguage | Source/Validator.java:16-18 | `isValidEmail` accepts exactly the non-null strings of the language, matched as a whole |
| Validator.BadFirst | Source/Validator.java:4 | because of the leading `\b`, a string whose first character is not a word character is rejected |
| Validator.Rejections | Source/Validator.java:16-18 | null, ".a@b.co" and "@example.com" are rejected |
| Validator.BadLocal | Source/Validator.java:4 | a character outside `[\w.%+-]` before the first '@' rules the string out |
| Validator.WholeMatch | Source/Validator.java:17 | a string that only contains an address is rejected |
| Validator.TopLevelLength | Source/Validator.java:4 | a top-level domain of 1 or 7 letters is rejected |
| Validator.Joined | Source/Validator.java:4 | any local part, domain and 2-6 letter top-level domain of the right shapes joined by '@' and '.' is accepted |
| Validator.AcceptedExamples | Source/Validator.java:4 | "a.b+c@example.co" and "x_1%y@st-andrews.ac.uk" are accepted |
| Validator.ValidEmailChars | Source/Validator.java:4 | every character of an accepted address is a local-part character or '@' |
| Validator.DomainAfterAt | Source/Validator.java:4 | an accepted address has an '@', and only `[a-zA-Z0-9.-]` characters follow it |
| Validator.PlusBeforeAt | Source/Validator.java:4 | an accepted address has '+' only before its '@' |
| Validator.PlusAsSpaceRejected | Source/Validator.java:4 | a '+' before the first '@' turned into a space makes the string invalid |
| SudokuCgi.IsValidSolution | Source/sudoku.java:117-119 | `isValidSolution`: not null and exactly 81 ASCII digits (`[\d]{81}`); SolutionExamples and AppletGridIsSolution state its behaviour |
| SudokuCgi.SolutionExamples | Source/sudoku.java:117-119 | null is rejected, 81 zeros are accepted, 80 digits and a letter among 81 are rejected |
| SudokuCgi.AppletGridIsSolution | Source/sudoku.java:18-20 | a grid of empty or digit cells, as the applet reads it back, is a valid solution |
| SudokuCgi.LineSplits | Source/sudoku.java:74 | the appended line splits at its first space into the email and the solution |
| SudokuCgi.SolutionsFile.AppendFile | Source/sudoku.java:71-76 | when the file opens, it gains exactly `email + " " + solution` and a newline; otherwise it is unchanged and the call fails |
| SudokuCgi.Run | Source/sudoku.java:37-58 | the page and the appended line are those of `Respond` for the parsed form |
| SudokuCgi.Respond | Source/sudoku.java:37-58 | the page `main` prints and the line it appends for a parsed form: the email check first, then the solution check, then the append; AppendsOnlyValid and EmailCheckedFirst state its cases |
| SudokuCgi.AppendsOnlyValid | Source/sudoku.java:39-57 | a line is appended iff the form was read, the email and the solution are valid and the file opened; this is exactly when the page says thank you, and the line is then email, space, solution |
| SudokuCgi.EmailCheckedFirst | Source/sudoku.java:39-44 | an invalid email gives the invalid-email page with nothing appended, whatever the solution |
| SudokuCgi.FieldNames | Source/SudokuApplet.java:173-174 | the field names "email" and "solution" need no encoding |
| SudokuCgi.EncodedSubmissionArrives | Source/SudokuApplet.java:165-183 | with the email form-encoded, every submission the applet lets through is appended as the typed email and the grid |
| SudokuCgi.RawSubmissionArrives | Source/SudokuApplet.java:173-174 | as written, an email without '%' or a delimiter arrives with its '+' turned into spaces |
| SudokuCgi.RawPlusArrivesBroken | Source/SudokuApplet.java:173-174 | as written, an email with a '+' before its '@' is rejected by the program, and nothing is appended |
| SudokuCgi.RawPlusIsRejected | Source/SudokuApplet.java:173-174 | as written, an address the applet accepts, with a '+' and no '%', is rejected by the program |
| SudokuCgi.PlusAddressLost | Source/SudokuApplet.java:173-174 | "a.b+c@example.co" passes the applet's check, is sent, and is rejected by the program |

## Left out

- Swing rendering is left out: the four background colours, `isInvalidColor`, caret selection and focus. Each cell has one valid/invalid flag instead. The editable and fixed shades of a colour are not distinguished.
- `keyPressed` dispatch is left out. So are left/right navigation by synthetic Tab events (`nextField`, `previousField`, `pressTab`), because they depend on AWT focus traversal.
- The cell coordinates the listener parses from the field name are given as a `Pos`.
- The applet lifecycle and UI are left out: `init`, widget layout, the email field's listener, the dialogs, `new URL`, `MalformedURLException` and `showDocument`. `sendSolution`'s outcome is the URL it would show.
- The applet's `outputURL` parameter is an input.
- CGI I/O is left out: `System.getProperties`, the request method, `content.length` and the `System.in.read` loop. `parseQuery` takes the input it would have read.
- The `Hashtable` capacity and enumeration order, `getAllNames`, `dumpAll` and all HTML output are left out. The program's page is a `Page` value.
- The file name and `FileWriter` are left out. The solutions file is a string, and whether it opens is a parameter.
- Java's regex engine is not modelled. Both patterns are hand-written predicates.
- Strings are sequences of Unicode scalar values, whereas Java's `indexOf`, `substring` and `charAt` count UTF-16 code units. Positions and lengths therefore differ for characters outside the Basic Multilingual Plane (in `unescape`, CgiApp.java:67-73, and in `getGrid`/`setCellContent`): Java turns "%😀x" into "\0x" where the model gives "\0", and "%😀" into "\0" where the model reports the exception (None).
- `out.println` (sudoku.java:74) ends the line with the platform line separator; the model writes "\n".
- `PrintWriter` swallows errors while writing, so only opening the file (sudoku.java:73) can throw the IOException; failed writes are not modelled.
- CgiApp.EscapeChar: a decoded byte becomes the character with the same code (an 8-bit charset such as Latin-1). The platform default charset is not modelled.
- CgiApp.HexDigit: ASCII digits and letters only. `Character.digit` also accepts non-ASCII Unicode digits and fullwidth letters.
- CgiApp.FormEncode: defined for ASCII text only, which covers every address the email check accepts.
- SudokuApplet.GetGrid: an input shorter than 81 characters makes `charAt` throw. It is a precondition here, and so it is for SudokuApplet.SetCellContent.
- SudokuListener.SelectFieldBelow: a column with no editable cell makes the source loop forever. Having an editable cell in the column is a precondition, and so it is for SudokuListener.SelectFieldAbove.
- SudokuListener.KeyTyped: the preservation of "the lists record exactly the conflicts" is proved for the intended subgrid bound only. As written it fails (see Findings). Symmetry, irreflexivity and the flag agreement are proved for both bounds.

## Findings

| source | as written | input that shows it | evidently intended | confidence | as-written member | corrected member |
|---|---|---|---|---|---|---|
| Source/SudokuListener.java:200 | the subgrid's column loop runs while `c < row + 3`, using the first row instead of the first column | a '5' typed at (0,6) with a '5' at (1,7): the column loop starts at 6 and stops before 3, so no crash is recorded; a '5' at (3,0) with a '5' at (4,4) records a crash with (4,4), which shares no row, column or block with (3,0); off the block diagonal some cell is always miscounted | `c < col + 3`, so the loops cover exactly the 3x3 block | not executed | SudokuListener.AsWrittenMissesBlock | SudokuListener.FoundIsConflicts |
| Source/SudokuApplet.java:173-174 | the typed email is put into the query string as it is, not URL-encoded | "a.b+c@example.co" passes the applet's check, but the CGI turns '+' into a space and its email check rejects "a.b c@example.co" | encode the email (`URLEncoder.encode`) before building the URL | not executed | SudokuCgi.PlusAddressLost | SudokuCgi.EncodedSubmissionArrives |
