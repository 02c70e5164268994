/*
 * The server's top-five table (ServerUDP/highscore.h, highscore.cpp): five
 * (name, score, play date) entries kept in a fixed array, the one-line-per-
 * entry text file they are saved to, the parser that reads that file back,
 * and the insertion of a new score.
 *
 * The file is given as its lines, each without the newline; a missing file
 * is None.  The clock reading used for the play date and whether converting
 * it to local time succeeded are parameters.
 */
module HighscoreTable {
  import opened Wire

  datatype Highscore = Highscore(name: string, score: int, playDate: int)

  /** The value-initialised entry of the global table. */
  const Blank := Highscore("", 0, 0)

  const Size: nat := 5

  // ---------------------------------------------------------------------------
  // Decimal text

  predicate IsDigit(c: char) { '0' <= c <= '9' }

  predicate AllDigits(s: string)
  {
    forall i :: 0 <= i < |s| ==> IsDigit(s[i])
  }

  function DigitChar(d: nat): (c: char)
    requires d < 10
    ensures IsDigit(c) && c as int - '0' as int == d
  {
    ('0' as int + d) as char
  }

  /** Decimal digits of n, most significant first, no leading zeros. */
  function Digits(n: nat): (s: string)
    ensures 1 <= |s| && AllDigits(s)
    ensures |s| > 1 ==> s[0] != '0'
  {
    if n < 10 then [DigitChar(n)] else Digits(n / 10) + [DigitChar(n % 10)]
  }

  /** How `<<` writes an int: a minus sign for negatives, then the digits. */
  function IntText(n: int): (s: string)
    ensures '|' !in s
  {
    if n < 0 then "-" + Digits(-n) else Digits(n)
  }

  /** The number a string of digits denotes. */
  function Value(s: string): nat
    requires AllDigits(s)
  {
    if s == [] then 0 else Value(s[..|s| - 1]) * 10 + (s[|s| - 1] as int - '0' as int)
  }

  lemma {:induction false} ValueDigits(n: nat)
    ensures Value(Digits(n)) == n
  {
    if n >= 10 {
      ValueDigits(n / 10);
      var s := Digits(n);
      assert s[..|s| - 1] == Digits(n / 10);
    }
  }

  /** A prefix of a digit string denotes no more than the whole string. */
  lemma {:induction false} ValuePrefix(s: string, k: nat)
    requires AllDigits(s) && k <= |s|
    ensures Value(s[..k]) <= Value(s)
    decreases |s|
  {
    if k < |s| {
      var front := s[..|s| - 1];
      ValuePrefix(front, k);
      assert front[..k] == s[..k];
      assert Value(s) == Value(front) * 10 + (s[|s| - 1] as int - '0' as int);
    } else {
      assert s[..k] == s;
    }
  }

  /** Length of the run of digits at the start of s. */
  function LeadingDigits(s: string): (k: nat)
    ensures k <= |s| && AllDigits(s[..k])
    ensures k < |s| ==> !IsDigit(s[k])
  {
    if s == [] || !IsDigit(s[0]) then 0
    else
      var k := LeadingDigits(s[1..]);
      assert s[..k + 1] == [s[0]] + s[1..][..k];
      k + 1
  }

  lemma AllDigitsLead(s: string)
    requires AllDigits(s)
    ensures LeadingDigits(s) == |s|
  {
  }

  /** The characters isspace accepts: space, tab, newline, vertical tab, form feed, carriage return. */
  predicate IsSpace(c: char) { c == ' ' || 9 <= c as int <= 13 }

  /** Length of the run of white space at the start of s, which strtol and strtoull skip. */
  function LeadingSpaces(s: string): (k: nat)
    ensures k <= |s| && (forall i :: 0 <= i < k ==> IsSpace(s[i]))
    ensures k < |s| ==> !IsSpace(s[k])
  {
    if s == [] || !IsSpace(s[0]) then 0 else LeadingSpaces(s[1..]) + 1
  }

  /** The text after the leading white space and an optional sign, and whether that sign was a minus. */
  function Unsigned(s: string): (r: (bool, string))
    ensures |r.1| <= |s|
  {
    var t := s[LeadingSpaces(s)..];
    if |t| > 0 && (t[0] == '-' || t[0] == '+') then (t[0] == '-', t[1..]) else (false, t)
  }

  /**
   * std::stoull followed by the store into a long long: leading white space
   * is skipped, a sign may follow, then the leading digits are read and the
   * rest of the text ignored.  No digit at all, or a magnitude beyond 64
   * bits, throws (None).  A minus sign negates modulo 2^64, and values of
   * 2^63 and above wrap negative in the long long.
   */
  function Stoull(s: string): (r: Option<int>)
    ensures r.Some? ==> -0x8000_0000_0000_0000 <= r.value < 0x8000_0000_0000_0000
  {
    var (neg, body) := Unsigned(s);
    var k := LeadingDigits(body);
    if k == 0 then None
    else
      var v := Value(body[..k]);
      if v >= 0x1_0000_0000_0000_0000 then None
      else
        var u := if neg && v > 0 then 0x1_0000_0000_0000_0000 - v else v;
        if u >= 0x8000_0000_0000_0000 then Some(u - 0x1_0000_0000_0000_0000) else Some(u)
  }

  /**
   * std::stoi: leading white space is skipped, then an optional sign and
   * the leading digits; no digit, or a value outside the 32-bit range,
   * throws (None).
   */
  function Stoi(s: string): (r: Option<int>)
    ensures r.Some? ==> IsInt32(r.value)
  {
    var (neg, body) := Unsigned(s);
    var k := LeadingDigits(body);
    if k == 0 then None
    else
      var v: int := if neg then -(Value(body[..k]) as int) else Value(body[..k]);
      if IsInt32(v) then Some(v) else None
  }

  /** A digit string, alone or after a minus sign, has no white space or sign to skip. */
  lemma UnsignedDigits(d: string)
    requires |d| > 0 && IsDigit(d[0])
    ensures Unsigned(d) == (false, d)
    ensures Unsigned("-" + d) == (true, d)
  {
    assert LeadingSpaces(d) == 0;
    assert ("-" + d)[0] == '-';
    assert LeadingSpaces("-" + d) == 0;
    assert ("-" + d)[1..] == d;
  }

  /** The digits of a number read in full. */
  lemma DigitsRead(n: nat)
    ensures LeadingDigits(Digits(n)) == |Digits(n)| && Digits(n)[..|Digits(n)|] == Digits(n)
    ensures Value(Digits(n)) == n
  {
    ValueDigits(n);
    AllDigitsLead(Digits(n));
  }

  lemma StoiIntText(n: int)
    requires IsInt32(n)
    ensures Stoi(IntText(n)) == Some(n)
  {
    var m := if n < 0 then -n else n;
    UnsignedDigits(Digits(m));
    DigitsRead(m);
  }

  lemma StoullDigits(n: nat)
    requires n < 0x8000_0000_0000_0000
    ensures Stoull(Digits(n)) == Some(n)
  {
    UnsignedDigits(Digits(n));
    DigitsRead(n);
  }

  /** A negative date, written with its minus sign, reads back as itself: strtoull negates modulo 2^64. */
  lemma StoullNegative(n: nat)
    requires 0 < n <= 0x8000_0000_0000_0000
    ensures Stoull(IntText(-(n as int))) == Some(-(n as int))
  {
    var d := Digits(n);
    assert IntText(-(n as int)) == "-" + d;
    UnsignedDigits(d);
    DigitsRead(n);
    StoullNegativeBody("-" + d, d, n);
  }

  /** Stoull of a text that reads as a minus sign and the digits of n wraps 2^64 - n back to -n. */
  lemma StoullNegativeBody(s: string, d: string, n: nat)
    requires 0 < n <= 0x8000_0000_0000_0000
    requires Unsigned(s) == (true, d) && 0 < LeadingDigits(d) == |d| && d[..|d|] == d
    requires AllDigits(d) && Value(d) == n
    ensures Stoull(s) == Some(-(n as int))
  {
  }

  /** Leading white space is skipped by both readers. */
  lemma SpaceSkipped(c: char, s: string)
    requires IsSpace(c)
    ensures Unsigned([c] + s) == Unsigned(s)
    ensures Stoi([c] + s) == Stoi(s) && Stoull([c] + s) == Stoull(s)
  {
    assert ([c] + s)[1..] == s;
    assert LeadingSpaces([c] + s) == LeadingSpaces(s) + 1;
    assert ([c] + s)[LeadingSpaces([c] + s)..] == s[LeadingSpaces(s)..];
  }

  // ---------------------------------------------------------------------------
  // string::find and string::substr

  /**
   * Position of the first c at or after `from`; |s| stands for npos.
   */
  function Find(s: string, c: char, from: nat): (k: nat)
    requires from <= |s|
    ensures from <= k <= |s|
    ensures k < |s| ==> s[k] == c
    ensures forall j :: from <= j < k ==> s[j] != c
    decreases |s| - from
  {
    if from == |s| || s[from] == c then from else Find(s, c, from + 1)
  }

  /** The contract of Find pins its result down. */
  lemma FindUnique(s: string, c: char, from: nat, k: nat)
    requires from <= k <= |s|
    requires k < |s| ==> s[k] == c
    requires forall j :: from <= j < k ==> s[j] != c
    ensures Find(s, c, from) == k
  {
  }

  /** s.substr(pos, count): at most count characters from pos on. */
  function Substr(s: string, pos: nat, count: nat): (r: string)
    requires pos <= |s|
    ensures r == s[pos..if count > |s| - pos then |s| else pos + count]
  {
    if count > |s| - pos then s[pos..] else s[pos..pos + count]
  }

  // ---------------------------------------------------------------------------
  // One line of the file

  /** WriteToHighscoreFile's line: name|score|playDate. */
  function FormatLine(h: Highscore): string
  {
    h.name + "|" + IntText(h.score) + "|" + IntText(h.playDate)
  }

  /**
   * The end of the line parser, from the text after the first bar: the
   * score up to the next bar, then the play date after it.  Without a bar
   * (npos + 1 wraps to 0) the same text is read for both.
   */
  function ParseRest(name: string, rest: string): (r: Option<Highscore>)
    ensures r.Some? ==> r.value.name == name && IsInt32(r.value.score)
  {
    var size := Find(rest, '|', 0);
    var dateText := if size == |rest| then rest else rest[size + 1..];
    match Stoi(rest[..size])
    case None => None
    case Some(score) =>
      match Stoull(dateText)
      case None => None
      case Some(date) => Some(Highscore(name, score, date))
  }

  /**
   * ReadFromHighscoreFile's parse of one line, as written: the text after
   * the first bar is cut to a length equal to the position of the second
   * bar, which is an index into the whole line, not a count from the first
   * bar.
   */
  function ParseLineAsWritten(line: string): Option<Highscore>
  {
    var size := Find(line, '|', 0);
    var start := if size == |line| then 0 else size + 1;
    ParseRest(line[..size], Substr(line, start, Find(line, '|', start)))
  }

  /** The parse as intended: the whole text after the first bar goes on to the score and date. */
  function ParseLine(line: string): (r: Option<Highscore>)
    ensures r.Some? ==> '|' !in r.value.name && IsInt32(r.value.score)
  {
    var size := Find(line, '|', 0);
    var start := if size == |line| then 0 else size + 1;
    assert forall j :: 0 <= j < size ==> line[..size][j] == line[j];
    ParseRest(line[..size], line[start..])
  }

  /** An entry the file can hold: no bar in the name, a 32-bit score, a non-negative 63-bit date. */
  predicate Storable(h: Highscore)
  {
    '|' !in h.name && IsInt32(h.score) && 0 <= h.playDate < 0x8000_0000_0000_0000
  }

  /** The first bar of a formatted line ends the name; the next one ends the score. */
  lemma FormatBars(h: Highscore)
    requires Storable(h)
    ensures var line := FormatLine(h);
      Find(line, '|', 0) == |h.name| &&
      line[..|h.name|] == h.name &&
      line[|h.name| + 1..] == IntText(h.score) + "|" + IntText(h.playDate) &&
      Find(line, '|', |h.name| + 1) == |h.name| + 1 + |IntText(h.score)|
  {
    var line := FormatLine(h);
    var n := |h.name|;
    var s := IntText(h.score);
    assert line[n] == '|';
    assert forall j :: 0 <= j < n ==> line[j] == h.name[j];
    FindUnique(line, '|', 0, n);
    assert line[n + 1 + |s|] == '|';
    assert forall j :: n + 1 <= j < n + 1 + |s| ==> line[j] == s[j - n - 1];
    FindUnique(line, '|', n + 1, n + 1 + |s|);
  }

  /** The score text ends at the first bar of "score|date". */
  lemma RestSplits(s: string, d: string)
    requires '|' !in s
    ensures Find(s + "|" + d, '|', 0) == |s|
    ensures (s + "|" + d)[..|s|] == s && (s + "|" + d)[|s| + 1..] == d
  {
    var rest := s + "|" + d;
    assert forall j :: 0 <= j < |s| ==> rest[j] == s[j];
    FindUnique(rest, '|', 0, |s|);
  }

  /** The score-and-date text "score|digits" parses to that score and the number the digits denote. */
  lemma ParseRestOf(name: string, score: int, digits: string)
    requires IsInt32(score) && AllDigits(digits) && Value(digits) < 0x8000_0000_0000_0000
    ensures ParseRest(name, IntText(score) + "|" + digits) ==
      if digits == [] then None else Some(Highscore(name, score, Value(digits)))
  {
    var s := IntText(score);
    RestSplits(s, digits);
    StoiIntText(score);
    StoullOf(digits);
    assert Find(s + "|" + digits, '|', 0) < |s + "|" + digits|;
  }

  /** A run of digits below 2^63 reads as the number it denotes; an empty one throws. */
  lemma StoullOf(digits: string)
    requires AllDigits(digits) && Value(digits) < 0x8000_0000_0000_0000
    ensures Stoull(digits) == if digits == [] then None else Some(Value(digits))
  {
    AllDigitsLead(digits);
    assert digits[..|digits|] == digits;
  }

  /** Reading back a written line gives the entry that was written. */
  lemma ParseFormat(h: Highscore)
    requires Storable(h)
    ensures ParseLine(FormatLine(h)) == Some(h)
  {
    FormatBars(h);
    ValueDigits(h.playDate);
    ParseRestOf(h.name, h.score, Digits(h.playDate));
  }

  function Min(a: nat, b: nat): nat { if a < b then a else b }

  /** Cutting "s|d" after |s| + 1 + m characters keeps "s|" and the first m characters of d. */
  lemma CutAfterBar(s: string, d: string, m: nat)
    requires m <= |d|
    ensures (s + "|" + d)[..|s| + 1 + m] == s + "|" + d[..m]
  {
  }

  /** The parser as written hands the name and a cut of "score|date" to ParseRest. */
  lemma AsWrittenSplit(h: Highscore)
    requires Storable(h)
    ensures var d := Digits(h.playDate);
      ParseLineAsWritten(FormatLine(h)) ==
        ParseRest(h.name, IntText(h.score) + "|" + d[..Min(|h.name|, |d|)])
  {
    var n := |h.name|;
    var d := Digits(h.playDate);
    FormatBars(h);
    AsWrittenCut(h);
    AsWrittenShape(FormatLine(h), n, n + 1 + |IntText(h.score)|, h.name,
                   IntText(h.score) + "|" + d[..Min(n, |d|)]);
  }

  /** The cut the parser as written makes after the first bar. */
  lemma AsWrittenCut(h: Highscore)
    requires Storable(h)
    ensures var n := |h.name|;
      var s := IntText(h.score);
      var d := Digits(h.playDate);
      n < |FormatLine(h)| && FormatLine(h)[..n] == h.name &&
      Substr(FormatLine(h), n + 1, n + 1 + |s|) == s + "|" + d[..Min(n, |d|)]
  {
    assert FormatLine(h) == h.name + "|" + IntText(h.score) + "|" + Digits(h.playDate);
    CutOfLine(h.name, IntText(h.score), Digits(h.playDate));
  }

  /** The same cut on any line "name|s|d": s, the bar, and as many characters of d as the name is long. */
  lemma CutOfLine(name: string, s: string, d: string)
    ensures var line := name + "|" + s + "|" + d;
      var n := |name|;
      n < |line| && line[..n] == name &&
      Substr(line, n + 1, n + 1 + |s|) == s + "|" + d[..Min(n, |d|)]
  {
    var line := name + "|" + s + "|" + d;
    var n := |name|;
    assert line[n + 1..] == s + "|" + d;
    var cut := Substr(line, n + 1, n + 1 + |s|);
    assert cut == line[n + 1..][..|s| + 1 + Min(n, |d|)];
    CutAfterBar(s, d, Min(n, |d|));
    assert line[..n] == name;
  }

  lemma AsWrittenShape(line: string, n: nat, e: nat, name: string, rest: string)
    requires n < |line| && Find(line, '|', 0) == n && Find(line, '|', n + 1) == e
    requires line[..n] == name && Substr(line, n + 1, e) == rest
    ensures ParseLineAsWritten(line) == ParseRest(name, rest)
  {
  }

  /**
   * What the parser as written makes of a written line: the play date keeps
   * only its first |name| digits, and with an empty name there is no digit
   * left and the parse throws.
   */
  lemma AsWrittenTruncatesDate(h: Highscore)
    requires Storable(h)
    ensures var d := Digits(h.playDate);
      ParseLineAsWritten(FormatLine(h)) ==
        if h.name == "" then None
        else Some(h.(playDate := Value(d[..Min(|h.name|, |d|)])))
  {
    var d := Digits(h.playDate);
    var kept := d[..Min(|h.name|, |d|)];
    AsWrittenSplit(h);
    ValuePrefix(d, Min(|h.name|, |d|));
    ValueDigits(h.playDate);
    ParseRestOf(h.name, h.score, kept);
  }

  /** A concrete line on which the two parsers differ: the date loses its last two digits. */
  lemma AsWrittenLosesDigits(h: Highscore)
    requires h == Highscore("player 1", 50, 1743465600)
    ensures ParseLineAsWritten(FormatLine(h)) == Some(h.(playDate := 17434656))
    ensures ParseLine(FormatLine(h)) == Some(h)
  {
    AsWrittenTruncatesDate(h);
    ParseFormat(h);
    SampleDigits();
    assert Digits(1743465600)[..8] == Digits(17434656);
    ValueDigits(17434656);
  }

  /** Appending a digit to a positive number appends its character to the text. */
  lemma DigitsAppend(m: nat, d: nat)
    requires 1 <= m && d < 10
    ensures Digits(10 * m + d) == Digits(m) + [DigitChar(d)]
  {
  }

  lemma SampleDigits()
    ensures |Digits(17434656)| == 8
    ensures Digits(1743465600) == Digits(17434656) + "00"
  {
    DigitsAppend(1, 7);
    DigitsAppend(17, 4);
    DigitsAppend(174, 3);
    DigitsAppend(1743, 4);
    DigitsAppend(17434, 6);
    DigitsAppend(174346, 5);
    DigitsAppend(1743465, 6);
    DigitsAppend(17434656, 0);
    DigitsAppend(174346560, 0);
  }

  /** The entry the table starts with cannot be read back by the parser as written. */
  lemma AsWrittenRejectsBlank()
    ensures ParseLineAsWritten(FormatLine(Blank)) == None
    ensures ParseLine(FormatLine(Blank)) == Some(Blank)
  {
    AsWrittenTruncatesDate(Blank);
    ParseFormat(Blank);
  }

  // ---------------------------------------------------------------------------
  // Names given at the end of a match

  /**
   * The name built for player slot i as written: `name += (i + 1)` appends
   * the character whose code is i + 1, a control character, not a digit.
   */
  function PlayerNameAsWritten(i: nat): string
    requires i < Players
  {
    "player " + [(i + 1) as char]
  }

  /** The name as intended: "player " and the slot number counted from one. */
  function PlayerName(i: nat): (r: string)
    ensures |r| > 7 && r[..7] == "player " && r[7..] == Digits(i + 1)
    ensures '|' !in r
  {
    "player " + Digits(i + 1)
  }

  /** The name as written is never the intended one; its last character is a control character. */
  lemma PlayerNameAsWrittenDiffers(i: nat)
    requires i < Players
    ensures PlayerNameAsWritten(i) != PlayerName(i)
    ensures PlayerNameAsWritten(i)[7] < ' '
  {
    assert PlayerName(i)[7] == Digits(i + 1)[0];
  }

  /** Different slots get different names. */
  lemma PlayerNamesDistinct(i: nat, j: nat)
    requires i != j
    ensures PlayerName(i) != PlayerName(j)
  {
    ValueDigits(i + 1);
    ValueDigits(j + 1);
    assert PlayerName(i)[7..] == Digits(i + 1);
    assert PlayerName(j)[7..] == Digits(j + 1);
  }

  // ---------------------------------------------------------------------------
  // The whole file

  /** std::getline past the end of the file yields an empty line. */
  function LineAt(lines: seq<string>, i: nat): string
  {
    if i < |lines| then lines[i] else ""
  }

  /**
   * The first n lines read with `parse`, in order; None as soon as one of
   * them fails.  The row lemmas below hold for any line parser.
   */
  function RowsBy(lines: seq<string>, n: nat, parse: string -> Option<Highscore>): Option<seq<Highscore>>
  {
    if n == 0 then Some([])
    else
      match RowsBy(lines, n - 1, parse)
      case None => None
      case Some(front) =>
        match parse(LineAt(lines, n - 1))
        case None => None
        case Some(h) => Some(front + [h])
  }

  /** ReadFromHighscoreFile's reading of the first n lines. */
  function ParseRows(lines: seq<string>, n: nat): Option<seq<Highscore>>
  {
    RowsBy(lines, n, ParseLine)
  }

  /** One more line read: the rows so far plus that line's entry, or a failure. */
  lemma RowsStep(lines: seq<string>, n: nat, parse: string -> Option<Highscore>, front: seq<Highscore>)
    requires RowsBy(lines, n, parse) == Some(front)
    ensures RowsBy(lines, n + 1, parse) ==
      if parse(LineAt(lines, n)).None? then None else Some(front + [parse(LineAt(lines, n)).value])
  {
  }

  /** When the rows are read, there are n of them and row i is what line i parses to. */
  lemma {:induction false} RowsSound(lines: seq<string>, n: nat, parse: string -> Option<Highscore>)
    requires RowsBy(lines, n, parse).Some?
    ensures |RowsBy(lines, n, parse).value| == n
    ensures forall i :: 0 <= i < n ==> parse(LineAt(lines, i)) == Some(RowsBy(lines, n, parse).value[i])
  {
    if n > 0 {
      RowsSound(lines, n - 1, parse);
      var front := RowsBy(lines, n - 1, parse).value;
      var r := RowsBy(lines, n, parse).value;
      assert r == front + [parse(LineAt(lines, n - 1)).value];
      forall i | 0 <= i < n
        ensures parse(LineAt(lines, i)) == Some(r[i])
      {
        if i < n - 1 {
          assert r[i] == front[i];
        }
      }
    }
  }

  /** When each of the first |es| lines parses to the matching entry, the rows are es. */
  lemma {:induction false} RowsComplete(lines: seq<string>, es: seq<Highscore>, parse: string -> Option<Highscore>)
    requires forall i :: 0 <= i < |es| ==> parse(LineAt(lines, i)) == Some(es[i])
    ensures RowsBy(lines, |es|, parse) == Some(es)
  {
    if es != [] {
      var n := |es|;
      var front := es[..n - 1];
      forall i | 0 <= i < |front|
        ensures parse(LineAt(lines, i)) == Some(front[i])
      {
        assert front[i] == es[i];
      }
      RowsComplete(lines, front, parse);
      assert front + [es[n - 1]] == es;
    }
  }

  /** Once a line fails, every longer run of lines fails too. */
  lemma {:induction false} RowsStayFailed(lines: seq<string>, n: nat, m: nat, parse: string -> Option<Highscore>)
    requires n <= m && RowsBy(lines, n, parse).None?
    ensures RowsBy(lines, m, parse).None?
    decreases m
  {
    if m > n {
      RowsStayFailed(lines, n, m - 1, parse);
    }
  }

  /** One line that fails makes the whole read fail. */
  lemma RowsFail(lines: seq<string>, n: nat, i: nat, parse: string -> Option<Highscore>)
    requires i < n && parse(LineAt(lines, i)).None?
    ensures RowsBy(lines, n, parse).None?
  {
    RowsStayFailed(lines, i + 1, n, parse);
  }

  /** A file written from a table of storable entries reads back as that table. */
  lemma WriteThenRead(es: seq<Highscore>, lines: seq<string>)
    requires |es| == |lines|
    requires forall i :: 0 <= i < |es| ==> Storable(es[i]) && lines[i] == FormatLine(es[i])
    ensures ParseRows(lines, |es|) == Some(es)
  {
    forall i | 0 <= i < |es|
      ensures ParseLine(LineAt(lines, i)) == Some(es[i])
    {
      ParseFormat(es[i]);
    }
    RowsComplete(lines, es, ParseLine);
  }

  /**
   * A file written from a table that still holds a blank entry (the file
   * every match with fewer than five players leaves) fails to read with
   * the parser as written, so stoull throws when the next match ends; the
   * corrected parser reads it back as it was written.
   */
  lemma AsWrittenBlankRowThrows(es: seq<Highscore>, lines: seq<string>, i: nat)
    requires |es| == Size && |lines| == Size && i < Size && es[i] == Blank
    requires forall k :: 0 <= k < Size ==> Storable(es[k]) && lines[k] == FormatLine(es[k])
    ensures RowsBy(lines, Size, ParseLineAsWritten).None?
    ensures ParseRows(lines, Size) == Some(es)
  {
    AsWrittenRejectsBlank();
    assert LineAt(lines, i) == FormatLine(Blank);
    RowsFail(lines, Size, i, ParseLineAsWritten);
    WriteThenRead(es, lines);
  }

  // ---------------------------------------------------------------------------
  // The table

  predicate SortedDesc(s: seq<Highscore>)
  {
    forall i, j :: 0 <= i < j < |s| ==> s[i].score >= s[j].score
  }

  /** std::sort with a greater-score comparison: sorted by descending score, a permutation of the input. */
  method SortDescending(a: array<Highscore>)
    modifies a
    ensures SortedDesc(a[..])
    ensures multiset(a[..]) == multiset(old(a[..]))
  {
    var i := 0;
    while i < a.Length
      invariant 0 <= i <= a.Length
      invariant forall k, l :: 0 <= k < l < i ==> a[k].score >= a[l].score
      invariant multiset(a[..]) == multiset(old(a[..]))
    {
      var j := i;
      while j > 0 && a[j - 1].score < a[j].score
        invariant 0 <= j <= i
        invariant forall k, l :: 0 <= k < l <= i && k != j && l != j ==> a[k].score >= a[l].score
        invariant forall l :: j < l <= i ==> a[j].score > a[l].score
        invariant multiset(a[..]) == multiset(old(a[..]))
      {
        Swap(a, j - 1, j);
        j := j - 1;
      }
      i := i + 1;
    }
  }

  /** Exchange two entries; the contents stay the same multiset. */
  method Swap(a: array<Highscore>, i: nat, j: nat)
    requires i < a.Length && j < a.Length
    modifies a
    ensures a[..] == old(a[..])[i := old(a[j])][j := old(a[i])]
    ensures multiset(a[..]) == multiset(old(a[..]))
  {
    a[i], a[j] := a[j], a[i];
  }

  datatype ReadOutcome =
    | Missing   // the file could not be opened; the table is left alone
    | Loaded    // all five lines parsed
    | Threw     // a line did not parse: stoi/stoull throw and the process ends

  class Table {
    var entries: array<Highscore>

    ghost predicate Valid()
      reads this
    {
      entries.Length == Size
    }

    /** The global table starts as five blank entries. */
    constructor()
      ensures Valid() && fresh(entries)
      ensures forall i :: 0 <= i < Size ==> entries[i] == Blank
    {
      entries := new Highscore[Size](_ => Blank);
    }

    /**
     * AddHighscore: a score no better than the last entry's is dropped, and
     * so is any score when the clock cannot be read; otherwise the last
     * entry is replaced and the table sorted by descending score.
     */
    method AddHighscore(score: int, name: string, now: int, clockOk: bool)
      requires Valid()
      modifies entries
      ensures score <= old(entries[Size - 1].score) || !clockOk ==> entries[..] == old(entries[..])
      ensures score > old(entries[Size - 1].score) && clockOk ==>
        SortedDesc(entries[..]) &&
        multiset(entries[..]) == multiset(old(entries[..Size - 1])) + multiset{Highscore(name, score, now)}
    {
      if score <= entries[Size - 1].score {
        return;
      }
      if !clockOk {
        return;
      }
      entries[Size - 1] := Highscore(name, score, now);
      assert entries[..] == old(entries[..Size - 1]) + [Highscore(name, score, now)];
      SortDescending(entries);
    }

    /** WriteToHighscoreFile: one formatted line per entry, in table order. */
    method WriteToHighscoreFile() returns (lines: seq<string>)
      requires Valid()
      ensures |lines| == Size
      ensures forall i :: 0 <= i < Size ==> lines[i] == FormatLine(entries[i])
    {
      lines := [];
      var i := 0;
      while i < Size
        invariant 0 <= i <= Size
        invariant |lines| == i
        invariant forall k :: 0 <= k < i ==> lines[k] == FormatLine(entries[k])
      {
        lines := lines + [FormatLine(entries[i])];
        i := i + 1;
      }
    }

    /**
     * ReadFromHighscoreFile: with no file the table is untouched; otherwise
     * the five lines are parsed in order into the five entries, and the
     * read completes exactly when every line parses.
     */
    method ReadFromHighscoreFile(file: Option<seq<string>>) returns (outcome: ReadOutcome)
      requires Valid()
      modifies entries
      ensures outcome == Missing <==> file.None?
      ensures outcome == Missing ==> entries[..] == old(entries[..])
      ensures outcome == Loaded <==> file.Some? && ParseRows(file.value, Size).Some?
      ensures outcome == Loaded ==> ParseRows(file.value, Size) == Some(entries[..])
    {
      if file.None? {
        return Missing;
      }
      var i := 0;
      while i < Size
        invariant 0 <= i <= Size
        invariant ParseRows(file.value, i) == Some(entries[..i])
      {
        var ok := LoadRow(file.value, i);
        if !ok {
          RowsStayFailed(file.value, i + 1, Size, ParseLine);
          return Threw;
        }
        i := i + 1;
      }
      assert entries[..] == entries[..Size];
      return Loaded;
    }

    /** One iteration of the read: line i parsed into entry i, unless it throws. */
    method LoadRow(lines: seq<string>, i: nat) returns (ok: bool)
      requires Valid() && i < Size && ParseRows(lines, i) == Some(entries[..i])
      modifies entries
      ensures ok <==> ParseRows(lines, i + 1).Some?
      ensures ok ==> ParseRows(lines, i + 1) == Some(entries[..i + 1])
    {
      var h := ParseLine(LineAt(lines, i));
      RowsStep(lines, i, ParseLine, entries[..i]);
      if h.None? {
        return false;
      }
      entries[i] := h.value;
      assert entries[..i + 1] == old(entries[..i]) + [h.value];
      return true;
    }
  }

  /**
   * After a successful insertion into a sorted table, the new entry is in
   * it and no entry scores below the entry that was dropped.
   */
  lemma InsertionRanking(before: seq<Highscore>, after: seq<Highscore>, x: Highscore)
    requires |before| == Size && SortedDesc(before) && x.score > before[Size - 1].score
    requires multiset(after) == multiset(before[..Size - 1]) + multiset{x}
    ensures x in after && |after| == Size
    ensures forall e :: e in after ==> e.score >= before[Size - 1].score
  {
    assert x in multiset(after);
    assert |multiset(after)| == Size;
    forall e | e in after
      ensures e.score >= before[Size - 1].score
    {
      assert e in multiset(after);
      if e != x {
        assert e in multiset(before[..Size - 1]);
        assert e in before[..Size - 1];
      }
    }
  }

  // ---------------------------------------------------------------------------
  // Successive insertions at the end of a match

  /** One AddHighscore call as a relation between the table before and after it. */
  predicate AddStep(before: seq<Highscore>, after: seq<Highscore>, score: int, name: string, now: int, clockOk: bool)
    requires |before| == Size
  {
    if score <= before[Size - 1].score || !clockOk then after == before
    else
      |after| == Size && SortedDesc(after) &&
      multiset(after) == multiset(before[..Size - 1]) + multiset{Highscore(name, score, now)}
  }

  /**
   * trail[0] is the table before the first offer and trail[j + 1] the table
   * after slot j's score was offered under the name PlayerName(j).
   */
  predicate Recorded(trail: seq<seq<Highscore>>, scores: seq<int>, now: int, clockOk: bool)
  {
    |trail| == |scores| + 1 &&
    (forall k :: 0 <= k < |trail| ==> |trail[k]| == Size) &&
    forall j :: 0 <= j < |scores| ==> AddStep(trail[j], trail[j + 1], scores[j], PlayerName(j), now, clockOk)
  }

  /** A chain of offers extended by one more step is still a chain. */
  lemma RecordedExtend(trail: seq<seq<Highscore>>, scores: seq<int>, after: seq<Highscore>, score: int,
                       now: int, clockOk: bool)
    requires Recorded(trail, scores, now, clockOk)
    requires AddStep(trail[|scores|], after, score, PlayerName(|scores|), now, clockOk)
    ensures Recorded(trail + [after], scores + [score], now, clockOk)
  {
    var t := trail + [after];
    var sc := scores + [score];
    forall j | 0 <= j < |sc|
      ensures AddStep(t[j], t[j + 1], sc[j], PlayerName(j), now, clockOk)
    {
      if j < |scores| {
        assert t[j] == trail[j] && t[j + 1] == trail[j + 1] && sc[j] == scores[j];
      }
    }
  }

  /** The entries the players' scores would make. */
  function Offers(scores: seq<int>, now: int): (m: multiset<Highscore>)
    ensures |m| == |scores|
  {
    if scores == [] then multiset{}
    else Offers(scores[..|scores| - 1], now) + multiset{Highscore(PlayerName(|scores| - 1), scores[|scores| - 1], now)}
  }

  /** A chain of offers cut before its last step is still a chain. */
  lemma RecordedPrefix(trail: seq<seq<Highscore>>, scores: seq<int>, now: int, clockOk: bool)
    requires Recorded(trail, scores, now, clockOk) && scores != []
    ensures Recorded(trail[..|trail| - 1], scores[..|scores| - 1], now, clockOk)
  {
    var t := trail[..|trail| - 1];
    var sc := scores[..|scores| - 1];
    forall j | 0 <= j < |sc|
      ensures AddStep(t[j], t[j + 1], sc[j], PlayerName(j), now, clockOk)
    {
      assert t[j] == trail[j] && t[j + 1] == trail[j + 1] && sc[j] == scores[j];
    }
  }

  /** Everything one step leaves in the table was there before or is the new entry. */
  lemma AddStepContents(before: seq<Highscore>, after: seq<Highscore>, score: int, name: string, now: int, clockOk: bool)
    requires |before| == Size && AddStep(before, after, score, name, now, clockOk)
    ensures multiset(after) <= multiset(before) + multiset{Highscore(name, score, now)}
  {
    if score > before[Size - 1].score && clockOk {
      assert before == before[..Size - 1] + [before[Size - 1]];
    }
  }

  /**
   * On a sorted table one step keeps it sorted, never lowers the last
   * score, and keeps every entry that beats the new last score.
   */
  lemma AddStepSorted(before: seq<Highscore>, after: seq<Highscore>, score: int, name: string, now: int, clockOk: bool)
    requires |before| == Size && SortedDesc(before) && AddStep(before, after, score, name, now, clockOk)
    ensures |after| == Size && SortedDesc(after) && after[Size - 1].score >= before[Size - 1].score
    ensures forall e :: e in before && e.score > after[Size - 1].score ==> e in after
    ensures score > after[Size - 1].score && clockOk ==> Highscore(name, score, now) in after
  {
    if score > before[Size - 1].score && clockOk {
      var x := Highscore(name, score, now);
      InsertionRanking(before, after, x);
      assert after[Size - 1] in after;
      forall e | e in before && e.score > after[Size - 1].score
        ensures e in after
      {
        var m :| 0 <= m < Size && before[m] == e;
        if m == Size - 1 {
          assert false;
        }
        assert e in before[..Size - 1];
        assert e in multiset(after);
      }
    }
  }

  /** After the offers, the table holds only entries of the starting table and the players' new entries. */
  lemma {:induction false} RecordedContents(trail: seq<seq<Highscore>>, scores: seq<int>, now: int, clockOk: bool)
    requires Recorded(trail, scores, now, clockOk)
    ensures multiset(trail[|scores|]) <= multiset(trail[0]) + Offers(scores, now)
  {
    if scores != [] {
      var n := |scores| - 1;
      RecordedPrefix(trail, scores, now, clockOk);
      RecordedContents(trail[..|trail| - 1], scores[..n], now, clockOk);
      assert trail[..|trail| - 1][0] == trail[0] && trail[..|trail| - 1][n] == trail[n];
      AddStepContents(trail[n], trail[n + 1], scores[n], PlayerName(n), now, clockOk);
    }
  }

  /** With no clock reading every offer is dropped. */
  lemma {:induction false} RecordedNoClock(trail: seq<seq<Highscore>>, scores: seq<int>, now: int)
    requires Recorded(trail, scores, now, false)
    ensures trail[|scores|] == trail[0]
  {
    if scores != [] {
      var n := |scores| - 1;
      RecordedPrefix(trail, scores, now, false);
      RecordedNoClock(trail[..|trail| - 1], scores[..n], now);
      assert trail[..|trail| - 1][0] == trail[0] && trail[..|trail| - 1][n] == trail[n];
      assert AddStep(trail[n], trail[n + 1], scores[n], PlayerName(n), now, false);
    }
  }

  /**
   * From a sorted table the offers leave a sorted table whose last score has
   * not dropped and that holds every player's entry scoring above that last
   * score.
   */
  lemma {:induction false} RecordedSorted(trail: seq<seq<Highscore>>, scores: seq<int>, now: int, clockOk: bool)
    requires Recorded(trail, scores, now, clockOk) && SortedDesc(trail[0])
    ensures SortedDesc(trail[|scores|]) && trail[|scores|][Size - 1].score >= trail[0][Size - 1].score
    ensures clockOk ==>
      forall j :: 0 <= j < |scores| && scores[j] > trail[|scores|][Size - 1].score ==>
        Highscore(PlayerName(j), scores[j], now) in trail[|scores|]
  {
    if scores != [] {
      var n := |scores| - 1;
      RecordedPrefix(trail, scores, now, clockOk);
      RecordedSorted(trail[..|trail| - 1], scores[..n], now, clockOk);
      assert trail[..|trail| - 1][0] == trail[0] && trail[..|trail| - 1][n] == trail[n];
      assert AddStep(trail[n], trail[n + 1], scores[n], PlayerName(n), now, clockOk);
      AddStepSorted(trail[n], trail[n + 1], scores[n], PlayerName(n), now, clockOk);
      if clockOk {
        forall j | 0 <= j < |scores| && scores[j] > trail[n + 1][Size - 1].score
          ensures Highscore(PlayerName(j), scores[j], now) in trail[n + 1]
        {
          if j < n {
            assert scores[..n][j] == scores[j];
          }
        }
      }
    }
  }
}
