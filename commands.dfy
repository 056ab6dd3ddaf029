/**
 * The coordinator's command loop (main, 3.cpp:883-941): prefix dispatch of
 * each input line, the `name rest` split every file command starts with
 * (3.cpp:90-93), and the node number parsed by `std::stoi`.
 */
module Commands {
  import opened Utils

  /** What a command line makes the coordinator do. `Aborted`: an uncaught `std::out_of_range` or `std::invalid_argument`. */
  datatype Command =
    | Upload(args: string)
    | Retrieve(args: string)
    | Search(args: string)
    | ListFile(args: string)
    | Failover(node: int)
    | Recover(node: int)
    | Exit
    | Ignored
    | Aborted

  predicate StartsWith(s: string, prefix: string) {
    |prefix| <= |s| && s[..|prefix|] == prefix
  }

  /** `s.substr(k)`: throws when k is past the end. */
  function Suffix(s: string, k: nat): (r: Option<string>)
    ensures r.Some? <==> k <= |s|
    ensures r.Some? ==> s == s[..k] + r.value
  {
    if k <= |s| then Some(s[k..]) else None
  }

  // ------------------------------------------------------------------ stoi

  predicate IsSpace(c: char) {
    c == ' ' || c == '\t' || c == '\n' || c == '\U{000B}' || c == '\U{000C}' || c == '\r'
  }

  predicate IsDigit(c: char) {
    '0' as int <= c as int <= '9' as int
  }

  /** The digit character of d. */
  function DigitChar(d: nat): (c: char)
    requires d < 10
    ensures IsDigit(c) && c as int - '0' as int == d
  {
    ('0' as int + d) as char
  }

  function SkipSpaces(s: string): (r: string)
    ensures |r| <= |s| && r == s[|s| - |r|..]
    ensures r == [] || !IsSpace(r[0])
  {
    if s != [] && IsSpace(s[0]) then SkipSpaces(s[1..]) else s
  }

  /** Length of the run of digits at the start of s. */
  function DigitRun(s: string): (n: nat)
    ensures n <= |s| && (forall i :: 0 <= i < n ==> IsDigit(s[i])) && (n == |s| || !IsDigit(s[n]))
  {
    if s != [] && IsDigit(s[0]) then 1 + DigitRun(s[1..]) else 0
  }

  /** Decimal value of a run of digits. */
  function Value(digits: string): nat
    requires forall i :: 0 <= i < |digits| ==> IsDigit(digits[i])
  {
    if digits == [] then 0
    else
      var last := digits[|digits| - 1];
      assert IsDigit(last);
      Value(digits[..|digits| - 1]) * 10 + (last as int - '0' as int)
  }

  /**
   * `std::stoi`: leading white space, an optional sign, then at least one
   * digit; whatever follows the digits is ignored. No digit: None.
   */
  function ParseInt(s: string): (r: Option<int>) {
    var t := SkipSpaces(s);
    var negative := t != [] && t[0] == '-';
    var body := if t != [] && (t[0] == '-' || t[0] == '+') then t[1..] else t;
    var n := DigitRun(body);
    if n == 0 then None
    else
      var v: int := Value(body[..n]);
      Some(if negative then -v else v)
  }

  /** The decimal numeral of n, without sign or leading zeros. */
  function Decimal(n: nat): (s: string)
    ensures |s| >= 1 && forall i :: 0 <= i < |s| ==> IsDigit(s[i])
  {
    (if n < 10 then [] else Decimal(n / 10)) + [DigitChar(n % 10)]
  }

  lemma {:induction false} DecimalValue(n: nat)
    ensures Value(Decimal(n)) == n
  {
    var s := Decimal(n);
    var q, d := n / 10, n % 10;
    assert n == q * 10 + d;
    assert s[..|s| - 1] == (if n < 10 then [] else Decimal(q)) && s[|s| - 1] == DigitChar(d);
    if n >= 10 {
      DecimalValue(q);
    }
  }

  /** A string of digits is one run of digits. */
  lemma AllDigits(d: string)
    requires forall i :: 0 <= i < |d| ==> IsDigit(d[i])
    ensures DigitRun(d) == |d|
  {
  }

  lemma NothingToSkip(s: string)
    requires s != [] && (s[0] == '-' || IsDigit(s[0]))
    ensures SkipSpaces(s) == s
  {
  }

  /** The numeral of an integer: a minus sign before negative ones. */
  function Numeral(n: int): string {
    if n < 0 then "-" + Decimal(-n) else Decimal(n)
  }

  /** `stoi` reads back every numeral, negative ones included. */
  lemma ParseNumeral(n: int)
    ensures ParseInt(Numeral(n)) == Some(n)
  {
    var m: nat := if n < 0 then -n else n;
    var d := Decimal(m);
    DecimalValue(m);
    AllDigits(d);
    assert d[..|d|] == d;
    if n < 0 {
      var s := "-" + d;
      NothingToSkip(s);
      assert s[1..] == d;
      assert ParseInt(s) == Some(n);
    } else {
      NothingToSkip(d);
      assert d[0] != '-' && d[0] != '+';
      assert ParseInt(d) == Some(n);
    }
  }

  // ------------------------------------------------------------ name / rest

  /** Position of the first space, `find(" ")`. */
  function FindSpace(s: string): (r: Option<nat>)
    ensures r.None? <==> ' ' !in s
    ensures r.Some? ==> r.value < |s| && s[r.value] == ' ' && ' ' !in s[..r.value]
  {
    if s == [] then None
    else if s[0] == ' ' then Some(0)
    else match FindSpace(s[1..])
      case None => None
      case Some(i) => assert s[..i + 1] == [s[0]] + s[1..][..i]; Some(i + 1)
  }

  /**
   * The split into file name and rest (3.cpp:90-93): around the first space;
   * without a space, `npos + 1` wraps to 0 and the rest is the whole string.
   */
  function SplitNameRest(s: string): (r: (string, string))
    ensures ' ' !in r.0
    ensures ' ' in s ==> s == r.0 + " " + r.1
    ensures ' ' !in s ==> r.0 == s && r.1 == s
  {
    match FindSpace(s)
    case None => (s, s)
    case Some(i) => assert s == s[..i] + " " + s[i + 1..]; (s[..i], s[i + 1..])
  }

  /** A name without spaces and any rest come back apart. */
  lemma SplitNameRoundTrip(name: string, rest: string)
    requires ' ' !in name
    ensures SplitNameRest(name + " " + rest) == (name, rest)
  {
    var s := name + " " + rest;
    assert s[|name|] == ' ';
    assert s[..|name|] == name && s[|name| + 1..] == rest;
  }

  // ------------------------------------------------------------------ lines

  /** The command a line stands for: the first keyword it starts with wins (3.cpp:887-941). */
  function Parse(line: string): Command {
    if StartsWith(line, "upload") then
      match Suffix(line, 7) case Some(a) => Upload(a) case None => Aborted
    else if StartsWith(line, "retrieve") then
      match Suffix(line, 9) case Some(a) => Retrieve(a) case None => Aborted
    else if StartsWith(line, "search") then
      match Suffix(line, 7) case Some(a) => Search(a) case None => Aborted
    else if StartsWith(line, "list_file") then
      match Suffix(line, 10) case Some(a) => ListFile(a) case None => Aborted
    else if StartsWith(line, "failover") then
      match Suffix(line, 9)
      case None => Aborted
      case Some(a) => (match ParseInt(a) case Some(n) => Failover(n) case None => Aborted)
    else if StartsWith(line, "recover") then
      match Suffix(line, 8)
      case None => Aborted
      case Some(a) => (match ParseInt(a) case Some(n) => Recover(n) case None => Aborted)
    else if StartsWith(line, "exit") then Exit
    else Ignored
  }

  /** A line whose first bytes differ from a keyword does not start with it. */
  lemma NotPrefix(line: string, keyword: string, i: nat)
    requires i < |keyword| && i < |line| && line[i] != keyword[i]
    ensures !StartsWith(line, keyword)
  {
  }

  /** A line made of a keyword, one separator byte and the arguments starts with the keyword and keeps the arguments after the separator. */
  lemma KeywordLine(keyword: string, sep: char, a: string)
    ensures StartsWith(keyword + [sep] + a, keyword)
    ensures Suffix(keyword + [sep] + a, |keyword| + 1) == Some(a)
  {
    var line := keyword + [sep] + a;
    assert line[..|keyword|] == keyword;
    assert line[|keyword| + 1..] == a;
  }

  /** `upload` followed by one separator byte and the arguments. */
  lemma ParseUpload(sep: char, a: string)
    ensures Parse("upload" + [sep] + a) == Upload(a)
  {
    KeywordLine("upload", sep, a);
  }

  lemma ParseRetrieve(sep: char, a: string)
    ensures Parse("retrieve" + [sep] + a) == Retrieve(a)
  {
    var line := "retrieve" + [sep] + a;
    KeywordLine("retrieve", sep, a);
    NotPrefix(line, "upload", 0);
  }

  lemma ParseSearch(sep: char, a: string)
    ensures Parse("search" + [sep] + a) == Search(a)
  {
    var line := "search" + [sep] + a;
    KeywordLine("search", sep, a);
    NotPrefix(line, "upload", 0);
    NotPrefix(line, "retrieve", 0);
  }

  lemma ParseListFile(sep: char, a: string)
    ensures Parse("list_file" + [sep] + a) == ListFile(a)
  {
    var line := "list_file" + [sep] + a;
    KeywordLine("list_file", sep, a);
    NotPrefix(line, "upload", 0);
    NotPrefix(line, "retrieve", 0);
    NotPrefix(line, "search", 0);
  }

  /** `failover`, one separator byte, then whatever `stoi` makes of the rest: a node, or an exception. */
  lemma ParseFailoverArgs(sep: char, a: string)
    ensures Parse("failover" + [sep] + a) == match ParseInt(a) case Some(n) => Failover(n) case None => Aborted
  {
    var line := "failover" + [sep] + a;
    KeywordLine("failover", sep, a);
    NotPrefix(line, "upload", 0);
    NotPrefix(line, "retrieve", 0);
    NotPrefix(line, "search", 0);
    NotPrefix(line, "list_file", 0);
  }

  /** `failover` followed by one separator byte and a numeral of the node. */
  lemma ParseFailover(sep: char, n: int)
    ensures Parse("failover" + [sep] + Numeral(n)) == Failover(n)
  {
    ParseFailoverArgs(sep, Numeral(n));
    ParseNumeral(n);
  }

  lemma ParseRecoverArgs(sep: char, a: string)
    ensures Parse("recover" + [sep] + a) == match ParseInt(a) case Some(n) => Recover(n) case None => Aborted
  {
    var line := "recover" + [sep] + a;
    KeywordLine("recover", sep, a);
    NotPrefix(line, "upload", 0);
    NotPrefix(line, "retrieve", 2);
    NotPrefix(line, "search", 0);
    NotPrefix(line, "list_file", 0);
    NotPrefix(line, "failover", 0);
  }

  lemma ParseRecover(sep: char, n: int)
    ensures Parse("recover" + [sep] + Numeral(n)) == Recover(n)
  {
    ParseRecoverArgs(sep, Numeral(n));
    ParseNumeral(n);
  }

  /** A keyword with nothing after it reads past the end of the line; `exit` needs nothing after it. */
  lemma BareKeywords()
    ensures Parse("upload") == Aborted && Parse("retrieve") == Aborted && Parse("search") == Aborted
    ensures Parse("list_file") == Aborted && Parse("failover") == Aborted && Parse("recover") == Aborted
    ensures Parse("exit") == Exit && Parse("exit now") == Exit
  {
    NotPrefix("retrieve", "upload", 0);
    NotPrefix("search", "upload", 0);
    NotPrefix("search", "retrieve", 0);
    NotPrefix("list_file", "upload", 0);
    NotPrefix("list_file", "retrieve", 0);
    NotPrefix("list_file", "search", 0);
    NotPrefix("failover", "upload", 0);
    NotPrefix("failover", "retrieve", 0);
    NotPrefix("failover", "search", 0);
    NotPrefix("failover", "list_file", 0);
    NotPrefix("recover", "upload", 0);
    NotPrefix("recover", "retrieve", 2);
    NotPrefix("recover", "search", 0);
    NotPrefix("recover", "list_file", 0);
    NotPrefix("recover", "failover", 0);
    NotPrefix("exit", "upload", 0);
    NotPrefix("exit", "retrieve", 0);
    NotPrefix("exit", "search", 0);
    NotPrefix("exit", "list_file", 0);
    NotPrefix("exit", "failover", 0);
    NotPrefix("exit", "recover", 0);
    NotPrefix("exit now", "upload", 0);
    NotPrefix("exit now", "retrieve", 0);
    NotPrefix("exit now", "search", 0);
    NotPrefix("exit now", "list_file", 0);
    NotPrefix("exit now", "failover", 0);
    NotPrefix("exit now", "recover", 0);
    assert "exit now"[..4] == "exit";
  }
}
