/** Interactive genre selection (main.js:43-64): resolving one line of user
    text to a genre by case-insensitive name or by 1-based menu number, and
    the re-prompt loop that reads lines until one is accepted. */
module Selection {
  import opened Text

  /** One scraped genre: its display name and the page it links to. */
  datatype Genre = Genre(name: string, url: string)

  /** Genre `i` matches the already lower-cased input `key`: the key is the
      genre's lower-cased name, or the decimal text of its 1-based position.
      Text that is not a numeral can only match by name. */
  predicate Hit(genres: seq<Genre>, key: string, i: nat)
    requires i < |genres|
    ensures !IsCanonicalDecimal(key) ==> (Hit(genres, key, i) <==> key == Lower(genres[i].name))
  {
    key == Lower(genres[i].name) || key == Decimal(i + 1)
  }

  /** Read as a number, the position test accepts exactly the canonical
      numerals whose value is `i + 1`. */
  lemma HitByValue(genres: seq<Genre>, key: string, i: nat)
    requires i < |genres|
    ensures Hit(genres, key, i) <==>
      key == Lower(genres[i].name) || (IsCanonicalDecimal(key) && ParseDecimal(key) == i + 1)
  {
    DecimalMatches(key, i + 1);
  }

  /** The position of the last genre among the first `n` that matches `key`. */
  function LastHit(genres: seq<Genre>, key: string, n: nat): (r: Option<nat>)
    requires n <= |genres|
    ensures r.Some? ==> r.value < n && Hit(genres, key, r.value)
    ensures r.Some? ==> forall j :: r.value < j < n ==> !Hit(genres, key, j)
    ensures r.None? <==> forall j :: 0 <= j < n ==> !Hit(genres, key, j)
    decreases n
  {
    if n == 0 then None
    else if Hit(genres, key, n - 1) then Some(n - 1)
    else LastHit(genres, key, n - 1)
  }

  /** The genre at an optional position, or no genre. */
  function GenreAt(genres: seq<Genre>, k: Option<nat>): (r: Option<Genre>)
    requires k.Some? ==> k.value < |genres|
    ensures r.Some? <==> k.Some?
    ensures r.Some? ==> r.value == genres[k.value]
  {
    match k
    case None => None
    case Some(i) => Some(genres[i])
  }

  /** What the validator answers for `input`: the last matching genre, or
      no genre (the source's `false`). */
  function Validate(genres: seq<Genre>, input: string): (r: Option<Genre>)
    ensures r.Some? <==> exists j :: 0 <= j < |genres| && Hit(genres, Lower(input), j)
    ensures r.Some? ==> r.value in genres
    ensures r.Some? ==> exists k :: 0 <= k < |genres| && Hit(genres, Lower(input), k) && r.value == genres[k]
    ensures |genres| == 0 ==> r == None
  {
    GenreAt(genres, LastHit(genres, Lower(input), |genres|))
  }

  /** The validator as the source runs it: lower-case the input once, then
      walk the list and overwrite the match on every hit. */
  method IsInputGenreValid(genres: seq<Genre>, selectedGenre: string) returns (found: Option<Genre>)
    ensures found == Validate(genres, selectedGenre)
  {
    var key := Lower(selectedGenre);
    found := None;
    for i := 0 to |genres|
      invariant found == GenreAt(genres, LastHit(genres, key, i))
    {
      if key == Lower(genres[i].name) || key == Decimal(i + 1) {
        found := Some(genres[i]);
      }
    }
  }

  /** When several genres match, the one furthest down the list is returned. */
  lemma LastHitWins(genres: seq<Genre>, input: string, k: nat)
    requires k < |genres| && Hit(genres, Lower(input), k)
    requires forall j :: k < j < |genres| ==> !Hit(genres, Lower(input), j)
    ensures Validate(genres, input) == Some(genres[k])
  {
    var r := LastHit(genres, Lower(input), |genres|);
    assert r.Some?;
  }

  /** The input matters only through its lower-cased form. */
  lemma ValidateIgnoresCase(genres: seq<Genre>, a: string, b: string)
    requires Lower(a) == Lower(b)
    ensures Validate(genres, a) == Validate(genres, b)
  {
  }

  /** Lower-casing the input first changes nothing. */
  lemma ValidateOfLowered(genres: seq<Genre>, input: string)
    ensures Validate(genres, Lower(input)) == Validate(genres, input)
  {
    LowerIdempotent(input);
  }

  /** The menu number of any listed genre is accepted; it selects that genre
      unless a genre further down has that number, lower-cased, as its name. */
  lemma IndexAccepted(genres: seq<Genre>, k: nat)
    requires 1 <= k <= |genres|
    ensures Validate(genres, Decimal(k)).Some?
    ensures (forall j :: k - 1 < j < |genres| ==> Lower(genres[j].name) != Decimal(k))
            ==> Validate(genres, Decimal(k)) == Some(genres[k - 1])
  {
    var key := Decimal(k);
    LowerKeepsDigits(key);
    assert Hit(genres, Lower(key), k - 1);
    if forall j :: k - 1 < j < |genres| ==> Lower(genres[j].name) != key {
      LaterPositionsMiss(genres, k);
      LastHitWins(genres, key, k - 1);
    }
  }

  /** Past position `k`, the numeral `k` can only match a genre by name. */
  lemma LaterPositionsMiss(genres: seq<Genre>, k: nat)
    requires 1 <= k <= |genres|
    requires forall j :: k - 1 < j < |genres| ==> Lower(genres[j].name) != Decimal(k)
    ensures forall j :: k - 1 < j < |genres| ==> !Hit(genres, Decimal(k), j)
  {
    forall j | k - 1 < j < |genres| ensures !Hit(genres, Decimal(k), j) {
      if Decimal(j + 1) == Decimal(k) {
        DecimalInjective(j + 1, k);
      }
    }
  }

  /** A number outside 1..|genres| never matches as a position: it is
      accepted exactly when some genre is named after it. */
  lemma OutOfRangeIndexOnlyByName(genres: seq<Genre>, k: nat)
    requires k == 0 || k > |genres|
    ensures Validate(genres, Decimal(k)).Some?
            <==> exists j :: 0 <= j < |genres| && Lower(genres[j].name) == Decimal(k)
  {
    LowerKeepsDigits(Decimal(k));
    forall j | 0 <= j < |genres|
      ensures Hit(genres, Decimal(k), j) <==> Lower(genres[j].name) == Decimal(k)
    {
      if Decimal(j + 1) == Decimal(k) {
        DecimalInjective(j + 1, k);
      }
    }
  }

  /** Input that is not, once lower-cased, the canonical text of a number
      (surrounding blanks, a leading zero, a sign) is never read as a
      position: it is accepted exactly when some genre's name matches. */
  lemma NonNumeralOnlyByName(genres: seq<Genre>, input: string)
    requires !IsCanonicalDecimal(Lower(input))
    ensures Validate(genres, input).Some?
            <==> exists j :: 0 <= j < |genres| && Lower(genres[j].name) == Lower(input)
  {
    forall j | 0 <= j < |genres|
      ensures Hit(genres, Lower(input), j) <==> Lower(genres[j].name) == Lower(input)
    {
      assert IsCanonicalDecimal(Decimal(j + 1));
    }
  }

  /** A name equal to another genre's menu number takes that number over:
      with genres "2" and "X", typing "2" selects "X". */
  lemma NameCollisionExample()
    ensures Validate([Genre("2", "a"), Genre("X", "b")], "2") == Some(Genre("X", "b"))
  {
    var genres := [Genre("2", "a"), Genre("X", "b")];
    assert Decimal(2) == "2";
    assert Lower("2") == "2";
    assert Hit(genres, "2", 1);
    LastHitWins(genres, "2", 1);
  }

  /** The two-genre catalog the examples below use. */
  const FictionRomance: seq<Genre> := [Genre("Fiction", "u1"), Genre("Romance", "u2")]

  /** With genres Fiction and Romance, "2" picks Romance. */
  lemma SecondByNumberExample()
    ensures Validate(FictionRomance, "2") == Some(FictionRomance[1])
  {
    assert Decimal(2) == "2";
    assert Lower("Romance") == "romance";
    IndexAccepted(FictionRomance, 2);
  }

  /** With genres Fiction and Romance, "romance", "Romance" and "ROMANCE"
      all pick Romance. */
  lemma SecondByNameExample(input: string)
    requires input in {"romance", "Romance", "ROMANCE"}
    ensures Validate(FictionRomance, input) == Some(FictionRomance[1])
  {
    assert Lower(input) == "romance";
    assert Lower("Romance") == "romance";
    assert Hit(FictionRomance, "romance", 1);
    LastHitWins(FictionRomance, input, 1);
  }

  /** With genres Fiction and Romance, "3" is rejected. */
  lemma OutOfRangeExample()
    ensures Validate(FictionRomance, "3") == None
  {
    assert Decimal(3) == "3";
    assert Lower("Fiction") == "fiction";
    assert Lower("Romance") == "romance";
    OutOfRangeIndexOnlyByName(FictionRomance, 3);
  }

  /** With genres Fiction and Romance, "fictio", " 2" and "02" are rejected. */
  lemma RejectedTextExample(input: string)
    requires input in {"fictio", " 2", "02"}
    ensures Validate(FictionRomance, input) == None
  {
    assert Lower(input) == input;
    assert Lower("Fiction") == "fiction";
    assert Lower("Romance") == "romance";
    NonNumeralOnlyByName(FictionRomance, input);
  }

  const Prompt: string := "Please select one: "
  const Rejected: string := "Genre wasn't recognized"

  /** What one attempt writes before reading: an empty line, then the prompt. */
  function Ask(): (out: seq<string>)
    ensures |out| == 2 && out[0] == "" && out[1] == Prompt && Rejected !in out
  {
    ["", Prompt]
  }

  /** The output of `rejections` rejected attempts, followed by the output of
      the accepting attempt when there is one. */
  function Transcript(rejections: nat, accepted: bool): (out: seq<string>)
    decreases rejections
  {
    if rejections == 0 then (if accepted then Ask() else [])
    else Ask() + [Rejected] + Transcript(rejections - 1, accepted)
  }

  /** The number of times `line` occurs in `out`. */
  function Occurrences(out: seq<string>, line: string): nat
    decreases |out|
  {
    if out == [] then 0
    else (if out[0] == line then 1 else 0) + Occurrences(out[1..], line)
  }

  lemma OccurrencesAppend(a: seq<string>, b: seq<string>, line: string)
    ensures Occurrences(a + b, line) == Occurrences(a, line) + Occurrences(b, line)
  {
    if a == [] {
      assert a + b == b;
    } else {
      assert (a + b)[1..] == a[1..] + b;
      OccurrencesAppend(a[1..], b, line);
    }
  }

  /** Each rejected attempt writes the rejection message exactly once, and
      the accepting attempt writes it not at all. */
  lemma {:induction false} OneRejectionPerRejectedInput(rejections: nat, accepted: bool)
    ensures Occurrences(Transcript(rejections, accepted), Rejected) == rejections
    ensures |Transcript(rejections, accepted)| == 3 * rejections + (if accepted then 2 else 0)
    decreases rejections
  {
    assert Occurrences(Ask(), Rejected) == 0 by {
      assert Ask()[1..] == [Prompt];
      assert [Prompt][1..] == [];
    }
    if rejections > 0 {
      OneRejectionPerRejectedInput(rejections - 1, accepted);
      OccurrencesAppend(Ask() + [Rejected], Transcript(rejections - 1, accepted), Rejected);
      OccurrencesAppend(Ask(), [Rejected], Rejected);
      assert [Rejected][1..] == [];
    }
  }

  /** The re-prompt loop over the lines the user types, in order: the first
      accepted line's genre, how many lines were read before it, and what
      was written. When the lines run out with none accepted there is no
      genre, and every line was read. */
  method GetUserInput(genres: seq<Genre>, inputs: seq<string>)
    returns (selected: Option<Genre>, rejections: nat, output: seq<string>)
    ensures rejections <= |inputs|
    ensures forall j :: 0 <= j < rejections ==> Validate(genres, inputs[j]) == None
    ensures selected.Some? ==> rejections < |inputs| && selected == Validate(genres, inputs[rejections])
    ensures selected.None? ==> rejections == |inputs|
    ensures output == Transcript(rejections, selected.Some?)
  {
    selected := None;
    rejections := 0;
    output := [];
    while rejections < |inputs|
      invariant rejections <= |inputs|
      invariant forall j :: 0 <= j < rejections ==> Validate(genres, inputs[j]) == None
      invariant output == Transcript(rejections, false)
      decreases |inputs| - rejections
    {
      var answer := IsInputGenreValid(genres, inputs[rejections]);
      if answer.Some? {
        TranscriptAccepting(rejections);
        output := output + Ask();
        selected := answer;
        return;
      }
      TranscriptRejecting(rejections);
      output := output + Ask() + [Rejected];
      rejections := rejections + 1;
    }
  }

  lemma {:induction false} TranscriptAccepting(rejections: nat)
    ensures Transcript(rejections, true) == Transcript(rejections, false) + Ask()
    decreases rejections
  {
    if rejections > 0 {
      TranscriptAccepting(rejections - 1);
    }
  }

  lemma {:induction false} TranscriptRejecting(rejections: nat)
    ensures Transcript(rejections + 1, false) == Transcript(rejections, false) + Ask() + [Rejected]
    decreases rejections
  {
    if rejections > 0 {
      TranscriptRejecting(rejections - 1);
    }
  }
}
