/** The conference date taken from the uploaded file's name, and the name
    of the generated PDF (main.py lines 21-28).

    The name is searched with the pattern `[\(\[]?(\d{4})(\d{2})(\d{2})[\)\]]?`
    under Python's `re.search` semantics: the leftmost position where the
    pattern matches wins, and at that position the optional opening bracket
    is taken when possible and given up when the digits only match without
    it. */
module FilenameDate {
  import opened Results
  import opened Sequences
  import opened Strings
  import opened Decimal

  predicate IsOpenBracket(c: char) { c == '(' || c == '[' }
  predicate IsCloseBracket(c: char) { c == ')' || c == ']' }

  /** Eight digits start at position `j` of `s`. */
  predicate DigitsAt(s: string, j: int) {
    0 <= j && j + 8 <= |s| && forall k :: j <= k < j + 8 ==> IsDigit(s[k])
  }

  /** The name holds a run of at least eight consecutive digits. */
  ghost predicate HasDateDigits(s: string) {
    exists j :: DigitsAt(s, j)
  }

  /** `j` is where the first run of eight consecutive digits begins. */
  ghost predicate IsFirstDigits(s: string, j: int) {
    DigitsAt(s, j) && forall k :: 0 <= k < j ==> !DigitsAt(s, k)
  }

  /** A successful match: the matched span `start..end` and the position
      `digits` where the three captured groups (4, 2 and 2 digits) begin. */
  datatype Match = Match(start: nat, digits: nat, end: nat)

  /** Position after the optional closing bracket that follows position `k`. */
  function CloseEnd(s: string, k: nat): (e: nat)
    ensures e == k || (e == k + 1 && k < |s| && IsCloseBracket(s[k]))
  {
    if k < |s| && IsCloseBracket(s[k]) then k + 1 else k
  }

  /** The regular expression tried at position `i` only. */
  function MatchAt(s: string, i: nat): (r: Option<Match>)
    ensures r.Some? <==> DigitsAt(s, i) || (i < |s| && IsOpenBracket(s[i]) && DigitsAt(s, i + 1))
    ensures r.Some? ==> (r.value.start == i && r.value.digits in {i, i + 1}
      && DigitsAt(s, r.value.digits) && r.value.digits + 8 <= r.value.end)
    ensures r.Some? ==> (r.value.digits == (if IsOpenBracket(s[i]) then i + 1 else i)
      && r.value.end == CloseEnd(s, r.value.digits + 8))
  {
    if i < |s| && IsOpenBracket(s[i]) && DigitsAt(s, i + 1) then
      Some(Match(i, i + 1, CloseEnd(s, i + 9)))
    else if DigitsAt(s, i) then
      Some(Match(i, i, CloseEnd(s, i + 8)))
    else
      None
  }

  /** `re.search` from position `i`: the match at the leftmost position
      `i..|s|` where the pattern matches, or nothing. */
  function Search(s: string, i: nat): (r: Option<Match>)
    ensures r.Some? ==> (i <= r.value.start <= |s| && MatchAt(s, r.value.start) == r
      && forall k :: i <= k < r.value.start ==> MatchAt(s, k).None?)
    ensures r.None? ==> forall k :: i <= k <= |s| ==> MatchAt(s, k).None?
    decreases |s| - i
  {
    if i > |s| then None
    else match MatchAt(s, i)
      case Some(m) => Some(m)
      case None => Search(s, i + 1)
  }

  /** The regex search finds the name's first run of eight digits, whatever
      brackets surround it: the groups are the first eight consecutive
      digits of the name (a longer run is cut after eight), the match takes
      in an opening bracket just before them and a closing bracket just
      after them, and there is no match exactly when there is no such run. */
  lemma SearchFindsFirstDigits(s: string)
    ensures Search(s, 0).None? <==> !HasDateDigits(s)
    ensures Search(s, 0).Some? ==>
      var m := Search(s, 0).value;
      && IsFirstDigits(s, m.digits)
      && m.start == (if m.digits > 0 && IsOpenBracket(s[m.digits - 1]) then m.digits - 1 else m.digits)
      && m.end == CloseEnd(s, m.digits + 8)
  {
    var r := Search(s, 0);
    if r.None? {
      forall j | 0 <= j <= |s| ensures !DigitsAt(s, j) {
        assert MatchAt(s, j).None?;
      }
    } else {
      var m := r.value;
      forall k | 0 <= k < m.digits ensures !DigitsAt(s, k) {
        if k < m.start {
          assert MatchAt(s, k).None?;
        } else {
          assert !IsDigit(s[k]);
        }
      }
      if m.digits > 0 && IsOpenBracket(s[m.digits - 1]) {
        assert MatchAt(s, m.digits - 1).Some?;
      }
    }
  }

  /** The date the name encodes. No range check is made: month 13 or day
      00 pass unchanged. */
  datatype DateStamp = DateStamp(year: nat, month: nat, day: nat)

  /** `int()` of the three captured groups when the digits begin at `j`:
      four digits make a year below 10000, two a month or day below 100. */
  function GroupsAt(s: string, j: int): (d: DateStamp)
    requires DigitsAt(s, j)
    ensures d.year < 10000 && d.month < 100 && d.day < 100
  {
    assert Pow10(2) == 100 && Pow10(4) == 10000;
    DateStamp(Value(s[j..j + 4]), Value(s[j + 4..j + 6]), Value(s[j + 6..j + 8]))
  }

  /** The date of a file name, or nothing when the name has no date (the
      point where the app shows an error and stops). */
  function ExtractDate(name: string): (r: Option<DateStamp>)
    ensures r.None? <==> !HasDateDigits(name)
    ensures r.Some? ==> forall j :: IsFirstDigits(name, j) ==> r.value == GroupsAt(name, j)
    ensures r.Some? ==> r.value.year < 10000 && r.value.month < 100 && r.value.day < 100
  {
    SearchFindsFirstDigits(name);
    match Search(name, 0)
    case None => None
    case Some(m) =>
      Some(GroupsAt(name, m.digits))
  }

  // ---------------------------------------------------------------------
  // the generated file's name
  // ---------------------------------------------------------------------

  /** The fixed tail of every generated file name ("governor's press
      conference", then the extension). */
  const Suffix: string := "知事記者会見.pdf"

  /** `f"{int(year)}.{int(month)}.{int(day)}"`; the dotted form loses
      nothing: reading it back gives the date. */
  function FormatDate(d: DateStamp): (r: string)
    ensures ParseDotted(r) == Some(d)
  {
    SplitDotted(Show(d.year), Show(d.month), Show(d.day));
    Show(d.year) + "." + Show(d.month) + "." + Show(d.day)
  }

  /** `f"{formatted_date}知事記者会見.pdf"`: a dotted date that reads back
      to `d`, then the suffix. */
  function OutputName(d: DateStamp): (r: string)
    ensures |r| > |Suffix| && r[|r| - |Suffix|..] == Suffix
    ensures ParseDotted(r[..|r| - |Suffix|]) == Some(d)
  {
    var f := FormatDate(d);
    var r := f + Suffix;
    assert r[..|f|] == f && r[|f|..] == Suffix;
    r
  }

  /** The three groups of the digits at `j` are digit strings. */
  lemma GroupsAreDigits(s: string, j: int)
    requires DigitsAt(s, j)
    ensures AllDigits(s[j..j + 4]) && AllDigits(s[j + 4..j + 6]) && AllDigits(s[j + 6..j + 8])
  {
  }

  /** The dotted date written straight from the characters of the name:
      each group with its leading zeros dropped. */
  function DottedDigits(s: string, j: int): (r: string)
    requires DigitsAt(s, j)
  {
    GroupsAreDigits(s, j);
    DropLeadingZeros(s[j..j + 4]) + "." + DropLeadingZeros(s[j + 4..j + 6])
      + "." + DropLeadingZeros(s[j + 6..j + 8])
  }

  /** Going through `int` and back prints the groups without their
      leading zeros. */
  lemma FormatGroups(s: string, j: int)
    requires DigitsAt(s, j)
    ensures FormatDate(GroupsAt(s, j)) == DottedDigits(s, j)
  {
    ShowDropsLeadingZeros(s[j..j + 4]);
    ShowDropsLeadingZeros(s[j + 4..j + 6]);
    ShowDropsLeadingZeros(s[j + 6..j + 8]);
  }

  /** The name of the generated PDF for an uploaded file name, or nothing
      when the name carries no date and the app stops. Each part of the date
      is the matching slice of the first eight-digit run with its leading
      zeros dropped. */
  function OutputFileName(name: string): (r: Option<string>)
    ensures r.None? <==> !HasDateDigits(name)
    ensures r.Some? ==> forall j :: IsFirstDigits(name, j) ==> r.value == DottedDigits(name, j) + Suffix
  {
    match ExtractDate(name)
    case None => None
    case Some(d) =>
      var r := OutputName(d);
      forall j | IsFirstDigits(name, j) ensures r == DottedDigits(name, j) + Suffix {
        FormatGroups(name, j);
      }
      Some(r)
  }

  /** Reads a dotted date `Y.M.D` back, each part a non-empty digit string. */
  function ParseDotted(s: string): (r: Option<DateStamp>)
  {
    var parts := Split(s, '.');
    if |parts| == 3 && forall k :: 0 <= k < 3 ==> |parts[k]| >= 1 && AllDigits(parts[k]) then
      Some(DateStamp(Value(parts[0]), Value(parts[1]), Value(parts[2])))
    else
      None
  }

  /** Three digit strings joined by dots split back into themselves. */
  lemma SplitDotted(a: string, b: string, c: string)
    requires AllDigits(a) && AllDigits(b) && AllDigits(c)
    ensures Split(a + "." + b + "." + c, '.') == [a, b, c]
  {
    var parts := [a, b, c];
    forall k | 0 <= k < 3 ensures '.' !in parts[k] {
      assert forall i :: 0 <= i < |parts[k]| ==> parts[k][i] != '.';
    }
    JoinCons(parts[1], [parts[2]], '.');
    JoinCons(parts[0], parts[1..], '.');
    HeadTail(parts);
    assert Join(parts, '.') == a + "." + b + "." + c;
    SplitJoin(parts, '.');
  }

  /** Different dates give different output names. */
  lemma OutputNameInjective(d1: DateStamp, d2: DateStamp)
    requires OutputName(d1) == OutputName(d2)
    ensures d1 == d2
  {
    var n1, n2 := OutputName(d1), OutputName(d2);
    assert n1[..|n1| - |Suffix|] == n2[..|n2| - |Suffix|];
  }

  /** A bracketed date with leading zeros, as in the app's own error
      message example: the zero in the month disappears and the brackets
      leave no trace. */
  lemma BracketedNameExample()
    ensures OutputFileName("(20250328)会見録.pdf") == Some("2025" + "." + "3" + "." + "28" + Suffix)
  {
    var name := "(20250328)会見録.pdf";
    assert DigitsAt(name, 1);
    assert name[0] == '(';
    assert IsFirstDigits(name, 1);
    assert name[1..5] == "2025" && name[5..7] == "03" && name[7..9] == "28";
    assert DropLeadingZeros("2025") == "2025";
    assert DropLeadingZeros("03") == "3";
    assert DropLeadingZeros("28") == "28";
    var r := OutputFileName(name);
    assert r.Some?;
    assert r.value == "2025" + "." + "3" + "." + "28" + Suffix;
  }

  /** A run of nine digits is cut after eight, so a digit in front of the
      date shifts every part: nothing checks that the parts form a date. */
  lemma LongRunExample()
    ensures OutputFileName("120250328.pdf") == Some("1202" + "." + "50" + "." + "32" + Suffix)
  {
    var name := "120250328.pdf";
    assert DigitsAt(name, 0);
    assert IsFirstDigits(name, 0);
    assert name[0..4] == "1202" && name[4..6] == "50" && name[6..8] == "32";
    assert DropLeadingZeros("1202") == "1202";
    assert DropLeadingZeros("50") == "50";
    assert DropLeadingZeros("32") == "32";
    var r := OutputFileName(name);
    assert r.Some?;
    assert r.value == "1202" + "." + "50" + "." + "32" + Suffix;
  }
}
