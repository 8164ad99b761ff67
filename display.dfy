/** The strings the program builds for the user and for the retailer search:
    the numbered genre menu (main.js:16-18) and the book identity
    `title + ' ' + author` (main.js:98). */
module Display {
  import opened Text
  import opened Selection

  /** Menu line for the genre at 0-based position `i`: "[i+1] name". */
  function MenuLine(i: nat, name: string): (line: string)
    ensures |line| == |Decimal(i + 1)| + 3 + |name|
    ensures line[0] == '[' && line[|line| - |name|..] == name
  {
    "[" + Decimal(i + 1) + "] " + name
  }

  /** The menu, one line per genre, in list order. */
  function Menu(genres: seq<Genre>): (lines: seq<string>)
    ensures |lines| == |genres|
  {
    seq(|genres|, i requires 0 <= i < |genres| => MenuLine(i, genres[i].name))
  }

  /** The number a menu line shows: the text between its leading '[' and the
      first ']'. */
  function ShownNumber(line: string): Option<string>
  {
    if |line| == 0 || line[0] != '[' then None
    else match IndexOf(line[1..], ']')
      case None => None
      case Some(k) => Some(line[1..][..k])
  }

  /** The name a menu line shows: what follows the first "] ". */
  function ShownName(line: string): Option<string>
  {
    match IndexOf(line, ']')
    case None => None
    case Some(k) =>
      if k + 1 < |line| && line[k + 1] == ' ' then Some(line[k + 2..]) else None
  }

  /** A menu line shows the 1-based position and the genre name it was built
      from, so both can be read back from it. */
  lemma MenuLineReadBack(i: nat, name: string)
    ensures ShownNumber(MenuLine(i, name)) == Some(Decimal(i + 1))
    ensures ShownName(MenuLine(i, name)) == Some(name)
  {
    var d := Decimal(i + 1);
    var line := MenuLine(i, name);
    assert forall k :: 0 <= k < |d| ==> d[k] != ']';
    assert line[1..] == d + [']'] + (" " + name);
    IndexOfAfter(d, ']', " " + name);
    assert line[1..][..|d|] == d;
    assert line == "[" + d + [']'] + (" " + name);
    assert ']' !in "[" + d;
    IndexOfAfter("[" + d, ']', " " + name);
    assert line[|d| + 3..] == name;
  }

  /** The number shown on menu line `i` is accepted by the validator, and it
      selects genre `i` unless a genre further down is named after it. */
  lemma MenuNumberSelectsItsGenre(genres: seq<Genre>, i: nat)
    requires i < |genres|
    ensures ShownNumber(Menu(genres)[i]) == Some(Decimal(i + 1))
    ensures Validate(genres, ShownNumber(Menu(genres)[i]).value).Some?
    ensures (forall j :: i < j < |genres| ==> Lower(genres[j].name) != Decimal(i + 1))
            ==> Validate(genres, ShownNumber(Menu(genres)[i]).value) == Some(genres[i])
  {
    MenuLineReadBack(i, genres[i].name);
    IndexAccepted(genres, i + 1);
  }

  /** The menu lists the genre names in list order. */
  lemma MenuListsNamesInOrder(genres: seq<Genre>, i: nat)
    requires i < |genres|
    ensures ShownName(Menu(genres)[i]) == Some(genres[i].name)
  {
    MenuLineReadBack(i, genres[i].name);
  }

  /** The search text for a book: its title and its author joined by one space. */
  function BookQuery(title: string, author: string): (q: string)
    ensures |q| == |title| + 1 + |author|
    ensures q[..|title|] == title && q[|title|] == ' ' && q[|title| + 1..] == author
  {
    title + " " + author
  }

  /** The split of `q` at its first space, or `q` and nothing when it has none. */
  function SplitAtFirstSpace(q: string): (string, string)
  {
    match IndexOf(q, ' ')
    case None => (q, "")
    case Some(k) => (q[..k], q[k + 1..])
  }

  /** A title without spaces is recovered from the query, with its author. */
  lemma {:induction false} BookQuerySplit(title: string, author: string)
    requires ' ' !in title
    ensures SplitAtFirstSpace(BookQuery(title, author)) == (title, author)
  {
    IndexOfAfter(title, ' ', author);
    var q := BookQuery(title, author);
    assert q == title + [' '] + author;
    assert q[..|title|] == title;
    assert q[|title| + 1..] == author;
  }

  /** The query forgets where the title ends once the title holds a space:
      two different books give the same search text. */
  lemma BookQueryAmbiguous()
    ensures BookQuery("Gone Girl", "Gillian Flynn") == "Gone Girl Gillian Flynn"
    ensures BookQuery("Gone", "Girl Gillian Flynn") == BookQuery("Gone Girl", "Gillian Flynn")
  {
  }
}
