/**
 * The checks of the connection panel (class UserEntryPanel) on what the user
 * typed: the port number, and the extension of the database location. Whether
 * the location names an existing file is asked of the file system, so it is a
 * parameter here.
 */
module EntryValidation {
  import opened Wrappers
  import opened Ascii

  const MinPortRange: int := 0
  const MaxPortRange: int := 65535
  const DatabaseExtension: string := "db"

  /** The range of a Java int. */
  const MinInt: int := -0x8000_0000
  const MaxInt: int := 0x7fff_ffff

  // ------------------------------------------------------------ decimal numbers

  predicate AllDigits(s: string) {
    forall i | 0 <= i < |s| :: IsAsciiDigit(s[i])
  }

  function DigitValue(c: char): nat
    requires IsAsciiDigit(c)
  {
    c as int - '0' as int
  }

  /** The value of a run of decimal digits, most significant first. */
  function DigitsValue(s: string): nat
    requires AllDigits(s)
  {
    if |s| == 0 then 0 else DigitsValue(s[..|s| - 1]) * 10 + DigitValue(s[|s| - 1])
  }

  /**
   * Integer.parseInt with radix 10: an optional '-' or '+', then at least one
   * digit; a value outside the range of int is refused like any other
   * malformed text (None stands for the NumberFormatException).
   */
  function ParseInt(s: string): (r: Option<int>)
    ensures r.Some? ==> MinInt <= r.value <= MaxInt
    ensures r.Some? ==> |s| > 0 && forall i | 0 < i < |s| :: IsAsciiDigit(s[i])
  {
    if |s| == 0 then None
    else if s[0] == '-' then ParseMagnitude(s[1..], true)
    else if s[0] == '+' then ParseMagnitude(s[1..], false)
    else ParseMagnitude(s, false)
  }

  /** The digits after the sign: at least one, all decimal, and the signed value within int. */
  function ParseMagnitude(digits: string, negative: bool): (r: Option<int>)
    ensures r.Some? ==> MinInt <= r.value <= MaxInt && |digits| > 0 && AllDigits(digits)
  {
    if |digits| == 0 || !AllDigits(digits) then None
    else
      var magnitude: int := DigitsValue(digits);
      var v := if negative then -magnitude else magnitude;
      if MinInt <= v <= MaxInt then Some(v) else None
  }

  /** The decimal digits of `n`, without leading zeros; "0" for zero. */
  function ShowNat(n: nat): string
    decreases n
  {
    if n < 10 then [('0' as int + n) as char] else ShowNat(n / 10) + [('0' as int + n % 10) as char]
  }

  /** Integer.toString, the reference against which ParseInt is stated. */
  function Show(n: int): string {
    if n < 0 then "-" + ShowNat(-n) else ShowNat(n)
  }

  /** The rendering of a number is a run of digits whose value is that number. */
  lemma {:induction false} ShowNatDigits(n: nat)
    ensures |ShowNat(n)| > 0 && AllDigits(ShowNat(n)) && DigitsValue(ShowNat(n)) == n
  {
    var s := ShowNat(n);
    if n >= 10 {
      ShowNatDigits(n / 10);
      assert s[..|s| - 1] == ShowNat(n / 10);
    }
  }

  /** parseInt reads back exactly the values toString renders that fit in an int. */
  lemma ParseShow(n: int)
    ensures ParseInt(Show(n)) == if MinInt <= n <= MaxInt then Some(n) else None
  {
    if n < 0 {
      var digits := ShowNat(-n);
      ShowNatDigits(-n);
      assert Show(n)[1..] == digits;
      assert ParseInt(Show(n)) == ParseMagnitude(digits, true);
    } else {
      var digits := ShowNat(n);
      ShowNatDigits(n);
      assert IsAsciiDigit(digits[0]);
      assert ParseInt(digits) == ParseMagnitude(digits, false);
    }
  }

  /** A character other than a digit, anywhere but a leading sign, makes the text no number. */
  lemma NonDigitRejected(s: string, i: int)
    requires 0 <= i < |s| && !IsAsciiDigit(s[i])
    requires i == 0 ==> s[0] != '-' && s[0] != '+'
    ensures ParseInt(s) == None
  {
    if i > 0 && (s[0] == '-' || s[0] == '+') {
      assert s[1..][i - 1] == s[i];
    }
  }

  /** Signs are read as Java reads them: a '+' is allowed, "-0" is zero, and a lone sign is no number. */
  lemma ParseIntExamples()
    ensures ParseInt("+80") == Some(80)
    ensures ParseInt("-0") == Some(0)
    ensures ParseInt("-") == None && ParseInt("+") == None && ParseInt("") == None
  {
    assert "+80"[1..] == "80";
    assert "80"[..1] == "8" && "8"[..0] == "";
    assert DigitsValue("80") == 80;
    assert "-0"[1..] == "0";
  }

  // ------------------------------------------------------------ the panel's checks

  /** invalidPortNumber: the text must parse as an int in [MIN_PORT_RANGE, MAX_PORT_RANGE]. */
  function InvalidPortNumber(portNumber: string): (invalid: bool)
    ensures !invalid ==> |portNumber| > 0 && forall i | 0 < i < |portNumber| :: IsAsciiDigit(portNumber[i])
    ensures !invalid ==> ParseInt(portNumber).Some? && MinPortRange <= ParseInt(portNumber).value <= MaxPortRange
  {
    match ParseInt(portNumber)
    case None => true
    case Some(port) => !(MinPortRange <= port <= MaxPortRange)
  }

  /** A port written out in decimal is accepted exactly when it lies in the range. */
  lemma PortAccepted(port: int)
    ensures !InvalidPortNumber(Show(port)) <==> MinPortRange <= port <= MaxPortRange
  {
    ParseShow(port);
  }

  /** Whatever the text, it is accepted exactly when it parses to a port in the range. */
  lemma PortNumberIff(portNumber: string)
    ensures !InvalidPortNumber(portNumber) <==>
              exists port | MinPortRange <= port <= MaxPortRange :: ParseInt(portNumber) == Some(port)
  {
    if !InvalidPortNumber(portNumber) {
      assert ParseInt(portNumber) == Some(ParseInt(portNumber).value);
    }
  }

  /**
   * Both ends of the range are accepted and the numbers just outside are not;
   * nor is the empty text or text with a letter in it; "+80" is port 80.
   */
  lemma PortExamples()
    ensures !InvalidPortNumber("0") && !InvalidPortNumber("+80") && !InvalidPortNumber(Show(65535))
    ensures InvalidPortNumber("-1") && InvalidPortNumber(Show(65536))
    ensures InvalidPortNumber("") && InvalidPortNumber("80a")
  {
    ParseIntExamples();
    PortAccepted(65535);
    PortAccepted(65536);
    assert "-1"[1..] == "1";
    NonDigitRejected("80a", 2);
  }

  predicate EndsWith(s: string, suffix: string) {
    |suffix| <= |s| && s[|s| - |suffix|..] == suffix
  }

  /** invalidDbLocation: the location must end in DATABASE_EXTENSION and name an existing file. */
  function InvalidDbLocation(dbLocation: string, fileExists: bool): (invalid: bool)
    ensures !invalid <==> fileExists && EndsWith(dbLocation, DatabaseExtension)
    ensures !fileExists ==> invalid
    ensures !invalid ==> |dbLocation| >= 2 && dbLocation[|dbLocation| - 1] == 'b'
  {
    !(EndsWith(dbLocation, DatabaseExtension) && fileExists)
  }

  /**
   * The extension test is on the last two characters alone: there is no dot
   * in DATABASE_EXTENSION, so an existing file whose name merely ends in "db"
   * is accepted.
   */
  lemma DbLocationAccepted(dbLocation: string, fileExists: bool)
    ensures !InvalidDbLocation(dbLocation, fileExists) <==>
              fileExists && |dbLocation| >= 2 && dbLocation[|dbLocation| - 2] == 'd' && dbLocation[|dbLocation| - 1] == 'b'
  {
    if |dbLocation| >= 2 && dbLocation[|dbLocation| - 2] == 'd' && dbLocation[|dbLocation| - 1] == 'b' {
      assert dbLocation[|dbLocation| - 2..] == "db";
    }
  }

  /** "foodb" passes as a database location; a missing file never does. */
  lemma DbLocationExamples()
    ensures !InvalidDbLocation("foodb", true)
    ensures !InvalidDbLocation("/data/db-1.db", true)
    ensures InvalidDbLocation("/data/db-1.db", false)
    ensures InvalidDbLocation("db.txt", true)
  {
    DbLocationAccepted("foodb", true);
    DbLocationAccepted("/data/db-1.db", true);
    DbLocationAccepted("db.txt", true);
  }
}
