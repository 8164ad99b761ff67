# Genre selection of the book-to-cart script, in Dafny

The script scrapes a list of book genres, prints it as a numbered menu, asks
the user to pick one, then fetches a random book of that genre and searches a
retailer for it. This project models the part whose behaviour it decides
itself, rather than leaving it to the websites:

- `Text` (text.dfy): ASCII lower-casing (standing in for `toLowerCase`).
  It also has the decimal text of a non-negative integer (`toString`), a
  parser that reads such text back, and a first-occurrence search.
- `Selection` (selection.dfy): the genre record and the validator
  `isInputGenreValid`. The validator has two forms. `Validate` is a pure
  reference definition. `IsInputGenreValid` is a method whose loop overwrites
  the match on every hit, as the source does. The module also holds the
  re-prompt loop `getUserInput`, over a sequence of typed lines.
- `Display` (display.dfy): the menu lines `[i+1] name` and the book search
  text `title + ' ' + author`.

What the validator does, and what is proved about it:

- The input is lower-cased once. It is not trimmed or parsed.
- Genre `i` matches when the input equals the genre's lower-cased name, or
  equals the decimal text of `i + 1`.
- The result is the LAST matching genre, because `match` is reassigned on
  every hit (main.js:59-62), or no genre (the source's `false`).
- Every menu number from 1 to the number of genres is accepted.
- A number outside that range, and any text that is not canonical decimal
  (`" 2"`, `"02"`), is accepted only through a genre name.
- The re-prompt loop returns the validator's answer for the first accepted
  line. It writes the rejection message exactly once for each line rejected
  before that one.

## Model

| member | source | states |
|---|---|---|
| `Text.LowerChar` | main.js:57 | the result is never an upper-case ASCII letter; a character is kept exactly when it is not upper-case; an upper-case letter becomes the lower-case letter at the same alphabet position |
| `Text.Lower` | main.js:57 | lower-casing keeps the length and lower-cases each character in place |
| `Text.LowerIdempotent` | main.js:57 | lower-casing an already lower-cased string changes nothing |
| `Text.LowerKeepsDigits` | main.js:57-60 | a string of digits, such as a menu number, is unchanged by lower-casing |
| `Text.Decimal` | main.js:60 | the text `(i+1).toString()` produces is non-empty, all digits, and starts with '0' only for zero, in which case it is "0" |
| `Text.DecimalRoundTrip` | main.js:60 | reading back the decimal text of a number gives that number |
| `Text.ParseRoundTrip` | main.js:60 | every canonical decimal string is the decimal text of the number it denotes |
| `Text.DecimalMatches` | main.js:60 | a string equals the decimal text of n exactly when it is a canonical numeral whose value is n |
| `Text.LowerIsDecimal` | main.js:57-60 | the lower-cased input is the decimal text of n exactly when the input itself is |
| `Text.DecimalInjective` | main.js:60 | two different positions never have the same decimal text |
| `Selection.Hit` | main.js:60 | genre i matches the lower-cased input by name or by its 1-based number; input that is not a canonical numeral matches exactly when it is the genre's lower-cased name |
| `Selection.HitByValue` | main.js:60 | genre i matches exactly when the input is its lower-cased name, or a canonical numeral whose value is i+1 |
| `Selection.LastHit` | main.js:58-62 | the position found matches the input and no later position matches; no position is found exactly when none of them matches |
| `Selection.Validate` | main.js:54-64 | a genre is returned exactly when some genre matches by lower-cased name or by 1-based number; the returned genre is in the list and is one that matches; an empty list yields no genre |
| `Selection.IsInputGenreValid` | main.js:54-64 | the loop, which overwrites the match on every hit, returns what `Validate` specifies |
| `Selection.LastHitWins` | main.js:59-62 | when genre k matches and no later genre does, genre k is returned, whatever earlier genres also matched |
| `Selection.ValidateIgnoresCase` | main.js:57 | two inputs with the same lower-cased form get the same answer |
| `Selection.ValidateOfLowered` | main.js:57 | lower-casing the input before validating changes nothing |
| `Selection.IndexAccepted` | main.js:60 | the decimal text of any k in 1..n is accepted; it returns genre k-1 unless a later genre's lower-cased name is that text |
| `Selection.LaterPositionsMiss` | main.js:60 | when no later genre is named after the numeral k, no genre after position k-1 matches it |
| `Selection.OutOfRangeIndexOnlyByName` | main.js:60 | the decimal text of 0 or of a number above n is accepted exactly when some genre's lower-cased name equals it |
| `Selection.NonNumeralOnlyByName` | main.js:57-60 | input whose lower-cased form is not canonical decimal text (blanks, leading zeros) is accepted exactly when some genre's lower-cased name equals it |
| `Selection.NameCollisionExample` | main.js:59-62 | with genres "2" and "X", the input "2" returns "X" |
| `Selection.SecondByNumberExample` | main.js:60 | with genres Fiction and Romance, "2" returns Romance |
| `Selection.SecondByNameExample` | main.js:57-61 | with genres Fiction and Romance, "romance", "Romance" and "ROMANCE" return Romance |
| `Selection.OutOfRangeExample` | main.js:60 | with genres Fiction and Romance, "3" is rejected |
| `Selection.RejectedTextExample` | main.js:57-61 | with genres Fiction and Romance, "fictio", " 2" and "02" are rejected |
| `Selection.Ask` | main.js:44-45 | each attempt writes two lines, an empty one and then the prompt, and neither is the rejection message |
| `Selection.GetUserInput` | main.js:43-52 | every line before the one accepted is rejected; the returned genre is the validator's answer for the first accepted line; with no accepted line every line is read and there is no genre; the output equals `Selection.Transcript`: an empty line and the prompt per attempt, plus the rejection message after each rejected attempt |
| `Selection.OneRejectionPerRejectedInput` | main.js:47-49 | the output holds the rejection message exactly once per rejected line, and three lines per rejected attempt plus two for the accepting one |
| `Display.MenuLine` | main.js:17 | the line opens with '[', ends with the genre name, and is three characters longer than the number and the name together; `Display.MenuLineReadBack` gives its exact contents |
| `Display.Menu` | main.js:16-18 | the menu has one line per genre |
| `Display.MenuLineReadBack` | main.js:17 | from the line `[i+1] name`, the number between the brackets reads back as the decimal text of i+1, and the text after "] " reads back as the name |
| `Display.MenuNumberSelectsItsGenre` | main.js:16-18 | menu line i shows the decimal text of i+1; that number is accepted by the validator; it selects genre i unless a later genre is named after that number |
| `Display.MenuListsNamesInOrder` | main.js:16-18 | menu line i shows the name of genre i |
| `Display.BookQuery` | main.js:98 | the search text is the title, then one space, then the author, and so is one character longer than the two together |
| `Display.BookQuerySplit` | main.js:98 | when the title has no space, splitting the search text at its first space gives back the title and the author |
| `Display.BookQueryAmbiguous` | main.js:98 | "Gone Girl" by "Gillian Flynn" gives "Gone Girl Gillian Flynn", the same text as "Gone" by "Girl Gillian Flynn" |

## Left out

- Text.Lower: only ASCII 'A'..'Z' are lower-cased. JavaScript's `toLowerCase` also maps non-ASCII letters, and can change a string's length (for example 'İ'); Dafny has no Unicode case tables here.
- Selection.Validate: returns a genre value, not a JavaScript object reference. Two list entries with identical name and url cannot be told apart in the result.
- Selection.GetUserInput: once the typed lines run out it stops with no genre. In the source the only way out of `getUserInput` is an accepted line (main.js:47-51); a reader that returned `null` would make `toLowerCase` at main.js:57 throw, and an interrupt ends the process (main.js:2).
- Selection.GetUserInput: is a loop, while main.js:49 recurses once per rejected line. The stack grows by one JavaScript frame per rejection, and the stack limit this implies is not modelled.
- The write of the undeclared global `selectedGenre` (main.js:46) is modelled by a local variable. Only `getUserInput` reads that global, at main.js:47 and 51, and both reads come right after the write at line 46 with no other write between. Nothing else reads it, and its last value equals the returned genre.
- Console output: the empty line, prompt and rejection message at main.js:44-45 and 48 become `GetUserInput`'s output sequence, and the menu printing at main.js:17 becomes `Display.Menu`. The messages at main.js:7, 15, 22-23, 27-28, 32 and 37 are not modelled, since they are fixed texts around browser steps the model leaves out. The `prompt-sync` reader (main.js:2) becomes the input sequence.
- Scraping the genre list, `getGenres` (main.js:66-79): browser automation against a live website. The list is an input of the model.
- `fetchRandomBookName` apart from its final concatenation (main.js:81-97). It is navigation, popup dismissal, hovering and tooltip reading in a browser.
- The random pick `Math.floor(Math.random() * booksHandles.length)` (main.js:91) uses floating point and randomness. When the list is empty the index is 0, so `booksHandles[0]` is `undefined` and the following `hover()` fails.
- `fetchCheckoutPage` (main.js:101-144) and `displayCheckoutPage` (main.js:146-163): retailer search, cart clicks, cookie transfer, the hard-coded browser path and the viewport setup. All of this is browser automation through a foreign library.
- The async driver with its try/catch/finally (main.js:6-41): control plumbing around the browser.
