/** The game-selection check of `find_appid_by_name`: the number typed at
    the menu picks a game when it is a number between 1 and the count of
    games; the game is shown by its Chinese name, or by its name when that
    is empty. */
module Selection {
  import opened Common

  /** One search hit: `appid`, `name` and `schinese_name`. */
  datatype Game = Game(appId: string, name: string, localizedName: string)

  /** `g['schinese_name'] or g['name']`. */
  function DisplayName(g: Game): (r: string)
    ensures r == g.localizedName || r == g.name
    ensures g.localizedName != [] ==> r == g.localizedName
    ensures r == [] <==> g.localizedName == [] && g.name == []
  {
    if g.localizedName != [] then g.localizedName else g.name
  }

  // ---------------------------------------------------------------------
  // Numbers as text

  function DigitValue(c: char): nat
    requires IsDecimalChar(c)
  {
    c as int - '0' as int
  }

  function DigitChar(k: nat): (c: char)
    requires k < 10
    ensures IsDecimalChar(c) && DigitValue(c) == k
  {
    ('0' as int + k) as char
  }

  /** `int(s)` for a string of ASCII digits. */
  function DecimalValue(s: string): nat
    requires forall i :: 0 <= i < |s| ==> IsDecimalChar(s[i])
  {
    if s == [] then 0
    else DecimalValue(s[..|s| - 1]) * 10 + DigitValue(s[|s| - 1])
  }

  /** `str(n)`: the menu numbers `f"{i}."` are printed this way. */
  function Digits(n: nat): (s: string)
    ensures IsDecimal(s)
  {
    if n < 10 then [DigitChar(n)] else Digits(n / 10) + [DigitChar(n % 10)]
  }

  /** Reading back a printed number gives the number. */
  lemma {:induction false} DigitsRoundTrip(n: nat)
    ensures DecimalValue(Digits(n)) == n
  {
    if n >= 10 {
      DigitsRoundTrip(n / 10);
      var s := Digits(n);
      assert s[..|s| - 1] == Digits(n / 10);
    }
  }

  // ---------------------------------------------------------------------
  // The check as written

  /** Characters for which Python's `str.isdigit` holds but which are not
      decimal digits, so that `int()` rejects them: the superscript,
      subscript and circled digits. */
  predicate IsDigitOnlyChar(c: char) {
    c == '\U{B2}' || c == '\U{B3}' || c == '\U{B9}' || c == '\U{2070}' ||
    ('\U{2074}' <= c <= '\U{2079}') || ('\U{2080}' <= c <= '\U{2089}') ||
    ('\U{2460}' <= c <= '\U{2468}')
  }

  /** Python's `str.isdigit`. */
  predicate IsDigitAsWritten(s: string) {
    |s| > 0 && forall i :: 0 <= i < |s| ==> IsDecimalChar(s[i]) || IsDigitOnlyChar(s[i])
  }

  /** Python's limit on the digits of an int-to-string or string-to-int
      conversion (`sys.int_info.default_max_str_digits`, Python 3.11 on). */
  const MaxStrDigits: nat := 4300

  /** `int(s)` on the strings the menu check hands it, those that pass
      `isdigit`: a ValueError unless every character is a decimal digit and
      there are at most `MaxStrDigits` of them. (Python's `int` also accepts
      surrounding whitespace, a sign and `_` between digits, none of which
      passes `isdigit`.) */
  function ParseInt(s: string): (r: Result<nat>)
    ensures r.Ok? <==> IsDecimal(s) && |s| <= MaxStrDigits
    ensures r.Ok? ==> r.value == DecimalValue(s)
  {
    if IsDecimal(s) && |s| <= MaxStrDigits then Ok(DecimalValue(s)) else Err(NotAnInteger)
  }

  /** `choice.isdigit() and 1 <= int(choice) <= len(games)` as written: the
      index of the chosen game, none for a rejected choice, or the
      ValueError that `int` raises on a digit that is not decimal or on
      too many digits. */
  function ChoiceAsWritten(choice: string, count: nat): (r: Result<Option<nat>>)
    ensures r.Ok? && r.value.Some? ==> r.value.value < count
    ensures !IsDigitAsWritten(choice) ==> r == Ok(None)
  {
    if !IsDigitAsWritten(choice) then Ok(None)
    else
      match ParseInt(choice)
      case Err(f) => Err(f)
      case Ok(n) => Ok(if 1 <= n <= count then Some(n - 1) else None)
  }

  /** A superscript two passes `isdigit`, and `int` then raises: the menu
      crashes instead of rejecting the choice. */
  lemma SuperscriptCrashes()
    ensures IsDigitAsWritten("\U{B2}")
    ensures ChoiceAsWritten("\U{B2}", 5) == Err(NotAnInteger)
    ensures Choice("\U{B2}", 5) == None
  {
    assert !IsDecimalChar("\U{B2}"[0]);
  }

  // ---------------------------------------------------------------------
  // The check as intended

  /** The check with the `ValueError` of `int` caught and treated as a
      rejected choice: the index of the chosen game, if `int` reads the
      choice as a number from 1 to the count of games. */
  function Choice(choice: string, count: nat): Option<nat> {
    match ParseInt(choice)
    case Ok(n) => if 1 <= n <= count then Some(n - 1) else None
    case Err(_) => None
  }

  /** A choice selects index `i` exactly when it is a decimal number of at
      most `MaxStrDigits` digits, equal to `i + 1`, and `i` is one of the
      games. */
  lemma ChoiceSpec(choice: string, count: nat, i: nat)
    ensures Choice(choice, count) == Some(i) <==>
      IsDecimal(choice) && |choice| <= MaxStrDigits && DecimalValue(choice) == i + 1 && i < count
  {
  }

  /** Typing the number printed next to game `i` selects that game. Printing
      a menu number of more than `MaxStrDigits` digits already raises at
      the menu itself, so only printable numbers are considered. */
  lemma MenuNumberSelects(count: nat, i: nat)
    requires i < count
    requires |Digits(i + 1)| <= MaxStrDigits
    ensures Choice(Digits(i + 1), count) == Some(i)
  {
    var s := Digits(i + 1);
    DigitsRoundTrip(i + 1);
    assert ParseInt(s) == Ok(i + 1);
  }

  /** The check as written agrees with the intended one whenever it does
      not raise, and it raises exactly on digit strings that are not
      decimal or that are longer than `MaxStrDigits`. */
  lemma AsWrittenAgrees(choice: string, count: nat)
    ensures ChoiceAsWritten(choice, count).Err? <==>
      IsDigitAsWritten(choice) && (!IsDecimal(choice) || |choice| > MaxStrDigits)
    ensures ChoiceAsWritten(choice, count).Ok? ==> ChoiceAsWritten(choice, count).value == Choice(choice, count)
  {
  }

  /** A decimal choice of more than `MaxStrDigits` digits (such as 4300
      zeros followed by a one) passes `isdigit`, and `int` then raises; the
      corrected check rejects it. */
  lemma LongChoiceCrashes(choice: string, count: nat)
    requires IsDecimal(choice) && |choice| > MaxStrDigits
    ensures IsDigitAsWritten(choice)
    ensures ChoiceAsWritten(choice, count) == Err(NotAnInteger)
    ensures Choice(choice, count) == None
  {
  }

  /** The selected game's `appid` and display name, if the choice is valid. */
  function SelectGame(games: seq<Game>, choice: string): (r: Option<(string, string)>)
    ensures r.Some? ==> exists i :: 0 <= i < |games| && r.value == (games[i].appId, DisplayName(games[i]))
    ensures games == [] ==> r.None?
  {
    match Choice(choice, |games|)
    case None => None
    case Some(i) => Some((games[i].appId, DisplayName(games[i])))
  }

  /** Typing the number printed next to a game selects that game. */
  lemma SelectListed(games: seq<Game>, i: nat)
    requires i < |games|
    requires |Digits(i + 1)| <= MaxStrDigits
    ensures SelectGame(games, Digits(i + 1)) == Some((games[i].appId, DisplayName(games[i])))
  {
    MenuNumberSelects(|games|, i);
  }
}
