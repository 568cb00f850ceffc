/**
 `find_task_file`: the file of a task number, looked up in the `tasks`
 directory by the naming convention `<number>-<status>-<description>.md`.

 The directory listing is a parameter: a sequence of entry names in the order
 the glob yields them. Three glob patterns are tried in a fixed order
 (in-progress, completed, pending), and the first entry matching the first
 pattern with any match is returned.
 */
module Resolver {
  import opened Wrappers

  datatype Status = InProgress | Completed | Pending

  /** The status word of a file name. */
  function Tag(st: Status): string {
    match st
    case InProgress => "in-progress"
    case Completed => "completed"
    case Pending => "pending"
  }

  /** The position of a status in the search order: in-progress first, pending last. */
  function Rank(st: Status): nat {
    match st
    case InProgress => 0
    case Completed => 1
    case Pending => 2
  }

  const TasksDir: string := "tasks"

  // ---------------------------------------------------------------------------
  // Decimal numerals: Python's str() of an int, and the int() of such a string

  predicate IsDigit(c: char) {
    '0' <= c <= '9'
  }

  function DigitChar(d: nat): (c: char)
    requires d < 10
    ensures IsDigit(c)
  {
    (48 + d) as char
  }

  function DigitValue(c: char): nat
    requires IsDigit(c)
  {
    c as int - 48
  }

  /** The decimal digits of `n`, without leading zeros. */
  function Digits(n: nat): (r: string)
    ensures 0 < |r|
    ensures forall i :: 0 <= i < |r| ==> IsDigit(r[i])
    ensures r[0] == '0' ==> n == 0
    decreases n
  {
    if n < 10 then [DigitChar(n)] else Digits(n / 10) + [DigitChar(n % 10)]
  }

  predicate AllDigits(s: string) {
    forall i :: 0 <= i < |s| ==> IsDigit(s[i])
  }

  /**
   `str(n)`: a minus sign exactly for negative numbers, then digits without a
   leading zero; zero itself is `0`.
   */
  function Decimal(n: int): (r: string)
    ensures 0 < |r| && (r[0] == '-' <==> n < 0)
    ensures n >= 0 ==> AllDigits(r) && (r[0] == '0' ==> r == "0")
    ensures n < 0 ==> 1 < |r| && AllDigits(r[1..]) && r[1] != '0'
  {
    if n < 0 then
      var d := Digits(-n);
      assert ("-" + d)[1..] == d;
      "-" + d
    else Digits(n)
  }

  /** The value of a non-empty string of decimal digits. */
  function DigitsValue(s: string): nat
    requires 0 < |s| && AllDigits(s)
    decreases |s|
  {
    if |s| == 1 then DigitValue(s[0])
    else 10 * DigitsValue(s[..|s| - 1]) + DigitValue(s[|s| - 1])
  }

  /** A digit string without a leading zero is the numeral of its value, and that value is positive unless it is `0`. */
  lemma {:induction false} CanonicalDigits(t: string)
    requires 0 < |t| && AllDigits(t)
    ensures t[0] != '0' ==> DigitsValue(t) >= 1
    ensures |t| == 1 || t[0] != '0' ==> Digits(DigitsValue(t)) == t
    decreases |t|
  {
    var c := t[|t| - 1];
    if |t| == 1 {
      assert DigitChar(DigitValue(c)) == c;
      assert t == [c];
    } else {
      var u := t[..|t| - 1];
      assert AllDigits(u) && u[0] == t[0];
      CanonicalDigits(u);
      if t[0] != '0' {
        var v := DigitsValue(t);
        assert v / 10 == DigitsValue(u) && v % 10 == DigitValue(c);
        assert DigitChar(DigitValue(c)) == c;
        assert t == u + [c];
      }
    }
  }

  /**
   `int(s)` for the plain forms: an optional minus sign and ASCII digits. A
   numeral written as `str` writes numbers, with no leading zero and no `-0`,
   is read as the number it is the numeral of.
   */
  function ParseInt(s: string): (r: Option<int>)
    ensures r.Some? <==> (0 < |s| && AllDigits(s)) || (1 < |s| && s[0] == '-' && AllDigits(s[1..]))
    ensures 0 < |s| && s[0] != '-' && (|s| == 1 || s[0] != '0') && r.Some? ==> Decimal(r.value) == s
    ensures 1 < |s| && s[0] == '-' && s[1] != '0' && r.Some? ==> Decimal(r.value) == s
  {
    if 0 < |s| && s[0] == '-' then
      if 1 < |s| && AllDigits(s[1..]) then
        var t := s[1..];
        CanonicalDigits(t);
        assert s == "-" + t;
        Some(-(DigitsValue(t) as int))
      else None
    else if 0 < |s| && AllDigits(s) then
      CanonicalDigits(s);
      Some(DigitsValue(s))
    else None
  }

  /** A leading zero adds nothing to the value of a digit string. */
  lemma {:induction false} DigitsValueLeadingZero(t: string)
    requires 0 < |t| && AllDigits(t)
    ensures AllDigits("0" + t) && DigitsValue("0" + t) == DigitsValue(t)
    decreases |t|
  {
    var w := "0" + t;
    assert AllDigits(w) by {
      assert forall i :: 0 < i < |w| ==> w[i] == t[i - 1];
    }
    if |t| == 1 {
      assert w[..1] == "0";
    } else {
      assert w[..|w| - 1] == "0" + t[..|t| - 1];
      DigitsValueLeadingZero(t[..|t| - 1]);
    }
  }

  /**
   `int()` ignores leading zeros, after a minus sign too, and reads `-0` as
   zero: `int("0118") == 118`, `int("-007") == -7`. With the contract of
   `ParseInt` this gives the value of every accepted numeral.
   */
  lemma ParseIntLeadingZero(t: string)
    requires 0 < |t| && AllDigits(t)
    ensures ParseInt("0" + t) == ParseInt(t)
    ensures ParseInt("-0" + t) == ParseInt("-" + t)
    ensures ParseInt("-0") == Some(0)
  {
    DigitsValueLeadingZero(t);
    assert ("-0" + t)[1..] == "0" + t;
    assert ("-" + t)[1..] == t;
    assert "-0"[1..] == "0";
  }

  lemma {:induction false} DigitsRoundTrip(n: nat)
    ensures DigitsValue(Digits(n)) == n
    decreases n
  {
    if n >= 10 {
      var r := Digits(n);
      DigitsRoundTrip(n / 10);
      assert r[..|r| - 1] == Digits(n / 10);
    }
  }

  /** Parsing the numeral of a task number gives the number back. */
  lemma DecimalRoundTrip(n: int)
    ensures ParseInt(Decimal(n)) == Some(n)
  {
    var m: nat := if n < 0 then -n else n;
    var d := Digits(m);
    DigitsRoundTrip(m);
    assert AllDigits(d);
    if n < 0 {
      var w := "-" + d;
      assert w[1..] == d;
      assert ParseInt(w) == Some(-(DigitsValue(d) as int));
    } else {
      assert d[0] != '-';
      assert ParseInt(d) == Some(DigitsValue(d));
    }
  }

  // ---------------------------------------------------------------------------
  // Glob patterns

  /** A compiled glob pattern element: a literal character or the wildcard `*`. */
  datatype Tok = Lit(c: char) | Star

  /** Reads a pattern; the patterns built here hold no `?` or `[`, so only `*` is special. */
  function Compile(pattern: string): (r: seq<Tok>)
    ensures |r| == |pattern|
  {
    if |pattern| == 0 then []
    else [if pattern[0] == '*' then Star else Lit(pattern[0])] + Compile(pattern[1..])
  }

  /** Each pattern character becomes one token: the wildcard exactly for `*`, otherwise the literal of that character. */
  lemma {:induction false} CompileTokens(pattern: string)
    ensures forall i :: 0 <= i < |pattern| ==> (Compile(pattern)[i] == Star <==> pattern[i] == '*')
    ensures forall i :: 0 <= i < |pattern| && Compile(pattern)[i].Lit? ==> Compile(pattern)[i].c == pattern[i]
    decreases |pattern|
  {
    if 0 < |pattern| {
      CompileTokens(pattern[1..]);
    }
  }

  /** fnmatch: `*` matches any string, the empty one included; a literal matches itself. */
  function GlobMatch(pat: seq<Tok>, name: string): bool
    decreases |pat| + |name|
  {
    if |pat| == 0 then |name| == 0
    else match pat[0]
      case Star => GlobMatch(pat[1..], name) || (0 < |name| && GlobMatch(pat, name[1..]))
      case Lit(c) => 0 < |name| && name[0] == c && GlobMatch(pat[1..], name[1..])
  }

  /** A lone `*` matches every name; a pattern without `*` matches only names of its own length. */
  lemma {:induction false} GlobMatchBounds(pat: seq<Tok>, name: string)
    ensures pat == [Star] ==> GlobMatch(pat, name)
    ensures GlobMatch(pat, name) && Star !in pat ==> |name| == |pat|
    decreases |pat| + |name|
  {
    if 0 < |pat| {
      if pat == [Star] && 0 < |name| {
        GlobMatchBounds(pat, name[1..]);
      }
      if pat[0].Lit? && 0 < |name| {
        assert Star !in pat ==> Star !in pat[1..];
        GlobMatchBounds(pat[1..], name[1..]);
      }
    }
  }

  /** The literal tokens of a string without `*`. */
  function Lits(s: string): (r: seq<Tok>)
    ensures |r| == |s|
  {
    if |s| == 0 then [] else [Lit(s[0])] + Lits(s[1..])
  }

  lemma {:induction false} LitsTokens(s: string)
    ensures forall i :: 0 <= i < |s| ==> Lits(s)[i] == Lit(s[i])
    decreases |s|
  {
    if 0 < |s| {
      LitsTokens(s[1..]);
    }
  }

  predicate NoStar(s: string) {
    '*' !in s
  }

  /** `name` starts with `prefix`, ends with `suffix`, and the two do not overlap. */
  predicate StarMatch(name: string, prefix: string, suffix: string) {
    |prefix| + |suffix| <= |name| && name[..|prefix|] == prefix && name[|name| - |suffix|..] == suffix
  }

  lemma CompileStarFree(s: string, rest: string)
    requires NoStar(s)
    ensures Compile(s + rest) == Lits(s) + Compile(rest)
  {
    var w := s + rest;
    var a, b := Compile(w), Lits(s) + Compile(rest);
    CompileTokens(w);
    CompileTokens(rest);
    LitsTokens(s);
    forall i | 0 <= i < |w|
      ensures a[i] == b[i]
    {
      if i < |s| {
        assert w[i] == s[i] && s[i] in s;
      } else {
        assert w[i] == rest[i - |s|];
      }
    }
  }

  /** A run of literals matches exactly its own characters at the front of the name. */
  lemma {:induction false} GlobLits(s: string, rest: seq<Tok>, name: string)
    ensures GlobMatch(Lits(s) + rest, name) <==>
      |s| <= |name| && name[..|s|] == s && GlobMatch(rest, name[|s|..])
    decreases |s|
  {
    var p := Lits(s) + rest;
    if |s| == 0 {
      assert p == rest;
      assert name[..0] == s && name[0..] == name;
    } else {
      assert p[0] == Lit(s[0]);
      assert p[1..] == Lits(s[1..]) + rest;
      if 0 < |name| {
        GlobLits(s[1..], rest, name[1..]);
        if |s| <= |name| {
          assert name[1..][|s| - 1..] == name[|s|..];
          assert name[..|s|] == [name[0]] + name[1..][..|s| - 1];
        }
      }
    }
  }

  /** Literals alone match exactly their own text. */
  lemma GlobLitsOnly(s: string, name: string)
    ensures GlobMatch(Lits(s), name) <==> name == s
  {
    assert Lits(s) + [] == Lits(s);
    GlobLits(s, [], name);
    if |s| <= |name| && name[..|s|] == s && |name[|s|..]| == 0 {
      assert name == name[..|s|];
    }
  }

  /** `*` followed by literals matches exactly the names ending with those literals. */
  lemma {:induction false} GlobStarSuffix(suffix: string, name: string)
    ensures GlobMatch([Star] + Lits(suffix), name) <==>
      |suffix| <= |name| && name[|name| - |suffix|..] == suffix
    decreases |name|
  {
    var p := [Star] + Lits(suffix);
    assert p[0] == Star;
    assert p[1..] == Lits(suffix);
    GlobLitsOnly(suffix, name);
    if |suffix| == |name| {
      assert name[0..] == name;
    }
    if 0 < |name| {
      GlobStarSuffix(suffix, name[1..]);
      if |suffix| < |name| {
        assert name[1..][|name| - 1 - |suffix|..] == name[|name| - |suffix|..];
      }
    }
  }

  /** A glob `<prefix>*<suffix>` with literal parts matches exactly the names `StarMatch` describes. */
  lemma GlobPrefixStarSuffix(prefix: string, suffix: string, name: string)
    requires NoStar(prefix) && NoStar(suffix)
    ensures GlobMatch(Compile(prefix + "*" + suffix), name) <==> StarMatch(name, prefix, suffix)
  {
    CompileStarFree(prefix, "*" + suffix);
    assert ("*" + suffix)[0] == '*' && ("*" + suffix)[1..] == suffix;
    CompileStarFree(suffix, "");
    assert suffix + "" == suffix;
    assert Compile("*" + suffix) == [Star] + Lits(suffix);
    assert prefix + "*" + suffix == prefix + ("*" + suffix);
    GlobLits(prefix, [Star] + Lits(suffix), name);
    if |prefix| <= |name| {
      var tail := name[|prefix|..];
      GlobStarSuffix(suffix, tail);
      if |suffix| <= |tail| {
        assert tail[|tail| - |suffix|..] == name[|name| - |suffix|..];
      }
    }
  }

  // ---------------------------------------------------------------------------
  // The three patterns and the lookup

  /** The part of a file name before the wildcard. */
  function NamePrefix(n: int, st: Status): string {
    Decimal(n) + "-" + Tag(st) + "-"
  }

  /** The glob pattern `f"{task_number}-<status>-*.md"`. */
  function Pattern(n: int, st: Status): string {
    NamePrefix(n, st) + "*" + ".md"
  }

  /** The entry `name` is matched by the pattern of task `n` with status `st`. */
  predicate Matches(name: string, n: int, st: Status) {
    GlobMatch(Compile(Pattern(n, st)), name)
  }

  lemma NamePrefixNoStar(n: int, st: Status)
    ensures NoStar(NamePrefix(n, st))
  {
    var d := Digits(if n < 0 then -n else n);
    assert NoStar(d);
    assert NoStar(Tag(st));
  }

  /** The pattern is `<n>-<status>-`, then the one wildcard of the pattern, then `.md`. */
  lemma PatternShape(n: int, st: Status)
    ensures var r, k := Pattern(n, st), |NamePrefix(n, st)|;
      && |r| == k + 4 && r[..k] == NamePrefix(n, st) && r[k] == '*' && r[k + 1..] == ".md"
      && NoStar(r[..k]) && NoStar(r[k + 1..])
  {
    NamePrefixNoStar(n, st);
    var r, k := Pattern(n, st), |NamePrefix(n, st)|;
    assert r[..k] == NamePrefix(n, st);
    assert r[k + 1..] == ".md";
  }

  /** A name matches the pattern exactly when it starts with `<n>-<status>-` and ends with `.md`. */
  lemma MatchesMeaning(name: string, n: int, st: Status)
    ensures Matches(name, n, st) <==> StarMatch(name, NamePrefix(n, st), ".md")
  {
    NamePrefixNoStar(n, st);
    GlobPrefixStarSuffix(NamePrefix(n, st), ".md", name);
  }

  /** The path of a directory entry. */
  function TaskPath(name: string): string {
    TasksDir + "/" + name
  }

  /** The index of the first entry at or after `from` that the pattern of `st` matches. */
  function FirstMatch(listing: seq<string>, n: int, st: Status, from: nat): (r: Option<nat>)
    ensures r.Some? ==> from <= r.value < |listing| && Matches(listing[r.value], n, st)
    ensures r.Some? ==> forall j :: from <= j < r.value ==> !Matches(listing[j], n, st)
    ensures r.None? ==> forall j :: from <= j < |listing| ==> !Matches(listing[j], n, st)
    decreases |listing| - from
  {
    if from >= |listing| then None
    else if Matches(listing[from], n, st) then Some(from)
    else FirstMatch(listing, n, st, from + 1)
  }

  /** An entry found by the lookup: the pattern that found it and its place in the listing. */
  datatype Hit = Hit(status: Status, index: nat)

  /**
   Entry `i` is the one the lookup must pick for status `st`: the first entry
   matching `st`, where no status earlier in the search order has a match.
   */
  ghost predicate Chosen(listing: seq<string>, n: int, st: Status, i: int) {
    && 0 <= i < |listing|
    && Matches(listing[i], n, st)
    && (forall j :: 0 <= j < i ==> !Matches(listing[j], n, st))
    && (forall st', j :: Rank(st') < Rank(st) && 0 <= j < |listing| ==> !Matches(listing[j], n, st'))
  }

  ghost predicate NoMatch(listing: seq<string>, n: int) {
    forall st, j :: 0 <= j < |listing| ==> !Matches(listing[j], n, st)
  }

  /** No entry matches any pattern exactly when each of the three searches comes back empty. */
  lemma NoMatchSearches(listing: seq<string>, n: int)
    ensures NoMatch(listing, n) <==>
      && FirstMatch(listing, n, InProgress, 0).None?
      && FirstMatch(listing, n, Completed, 0).None?
      && FirstMatch(listing, n, Pending, 0).None?
  {
    var a, b, c := FirstMatch(listing, n, InProgress, 0), FirstMatch(listing, n, Completed, 0),
                   FirstMatch(listing, n, Pending, 0);
    if a.None? && b.None? && c.None? {
      forall st, j | 0 <= j < |listing|
        ensures !Matches(listing[j], n, st)
      {
        match st
        case InProgress =>
        case Completed =>
        case Pending =>
      }
    }
  }

  /** The three lookups of `find_task_file`: in-progress, then completed, then pending. */
  function Locate(listing: seq<string>, n: int): (r: Option<Hit>)
    ensures r.Some? ==> Chosen(listing, n, r.value.status, r.value.index)
    ensures r.None? <==> NoMatch(listing, n)
  {
    NoMatchSearches(listing, n);
    var first := FirstMatch(listing, n, InProgress, 0);
    if first.Some? then Some(Hit(InProgress, first.value))
    else
      var second := FirstMatch(listing, n, Completed, 0);
      if second.Some? then Some(Hit(Completed, second.value))
      else
        var third := FirstMatch(listing, n, Pending, 0);
        if third.Some? then Some(Hit(Pending, third.value))
        else None
  }

  datatype ResolveError = TaskNotFound(n: int) | FileNotFound(path: string)

  /** `find_task_file`: the path of the chosen entry, or `FileNotFoundError` naming the number. */
  function FindTaskFile(listing: seq<string>, n: int): (r: Result<string, ResolveError>)
    ensures r.Failure? <==> NoMatch(listing, n)
    ensures r.Failure? ==> r.error == TaskNotFound(n)
    ensures r.Success? ==> exists st, i :: Chosen(listing, n, st, i) && r.value == TaskPath(listing[i])
  {
    match Locate(listing, n)
    case Some(h) => Success(TaskPath(listing[h.index]))
    case None => Failure(TaskNotFound(n))
  }

  /** At most one entry is the chosen one. */
  lemma ChosenUnique(listing: seq<string>, n: int, st1: Status, i1: int, st2: Status, i2: int)
    requires Chosen(listing, n, st1, i1) && Chosen(listing, n, st2, i2)
    ensures st1 == st2 && i1 == i2
  {
    assert Rank(st1) == Rank(st2);
  }

  /**
   A match for a status guarantees a result whose status comes no later in the
   search order: in-progress beats completed and pending, completed beats pending.
   */
  lemma Priority(listing: seq<string>, n: int, st: Status, j: int)
    requires 0 <= j < |listing| && Matches(listing[j], n, st)
    ensures Locate(listing, n).Some?
    ensures Rank(Locate(listing, n).value.status) <= Rank(st)
  {
    var h := Locate(listing, n);
    assert !NoMatch(listing, n);
  }

  /** The returned entry is named `<n>-<status>-<anything>.md` for the status that found it. */
  lemma FoundNameShape(listing: seq<string>, n: int)
    requires Locate(listing, n).Some?
    ensures var h := Locate(listing, n).value;
      && FindTaskFile(listing, n) == Success(TaskPath(listing[h.index]))
      && StarMatch(listing[h.index], NamePrefix(n, h.status), ".md")
  {
    var h := Locate(listing, n).value;
    MatchesMeaning(listing[h.index], n, h.status);
  }

  // ---------------------------------------------------------------------------
  // Two lookups for task 118
  //
  // The facts about the literal names are split into small lemmas, each taking
  // its literal through a parameter, so that every proof stays small; the
  // generic `MatchesByShape` and `InProgressSecond` carry the reasoning.

  lemma Decimal118()
    ensures Decimal(118) == "118"
  {
    assert Digits(1) == "1";
    assert Digits(11) == "11";
  }

  /** The fixed part of the file names of task 118. */
  lemma Prefix118(st: Status, p: string)
    requires p == "118-" + Tag(st) + "-"
    ensures NamePrefix(118, st) == p
  {
    Decimal118();
  }

  /** A name of the right shape matches, given the prefix of its task number and status. */
  lemma MatchesByShape(name: string, n: int, st: Status, prefix: string)
    requires NamePrefix(n, st) == prefix && StarMatch(name, prefix, ".md")
    ensures Matches(name, n, st)
  {
    MatchesMeaning(name, n, st);
  }

  lemma CompletedShape118(name: string)
    requires name == "118-completed-foo.md"
    ensures StarMatch(name, "118-completed-", ".md")
  {
    assert name[..14] == "118-completed-";
    assert name[17..] == ".md";
  }

  lemma CompletedName118(name: string)
    requires name == "118-completed-foo.md"
    ensures Matches(name, 118, Completed)
  {
    Prefix118(Completed, "118-completed-");
    CompletedShape118(name);
    MatchesByShape(name, 118, Completed, "118-completed-");
  }

  lemma CompletedNotInProgress118(name: string)
    requires name == "118-completed-foo.md"
    ensures !Matches(name, 118, InProgress)
  {
    Decimal118();
    MatchesMeaning(name, 118, InProgress);
    assert name[4] != NamePrefix(118, InProgress)[4];
  }

  lemma InProgressShape118(name: string)
    requires name == "118-in-progress-bar.md"
    ensures StarMatch(name, "118-in-progress-", ".md")
  {
    assert name[..16] == "118-in-progress-";
    assert name[19..] == ".md";
  }

  lemma InProgressName118(name: string)
    requires name == "118-in-progress-bar.md"
    ensures Matches(name, 118, InProgress)
  {
    Prefix118(InProgress, "118-in-progress-");
    InProgressShape118(name);
    MatchesByShape(name, 118, InProgress, "118-in-progress-");
  }

  /** A lone completed entry is found by the second pattern. */
  lemma ExampleCompletedFound()
    ensures FindTaskFile(["118-completed-foo.md"], 118) == Success(TaskPath("118-completed-foo.md"))
  {
    var a := "118-completed-foo.md";
    CompletedName118(a);
    CompletedNotInProgress118(a);
    assert FirstMatch([a], 118, InProgress, 0) == None;
    assert FirstMatch([a], 118, Completed, 0) == Some(0);
  }

  /** An in-progress entry wins over a completed one listed before it. */
  lemma ExampleInProgressFirst()
    ensures FindTaskFile(["118-completed-foo.md", "118-in-progress-bar.md"], 118)
         == Success(TaskPath("118-in-progress-bar.md"))
  {
    CompletedNotInProgress118("118-completed-foo.md");
    InProgressName118("118-in-progress-bar.md");
    InProgressSecond("118-completed-foo.md", "118-in-progress-bar.md", 118);
  }

  lemma InProgressSecond(a: string, b: string, n: int)
    requires !Matches(a, n, InProgress) && Matches(b, n, InProgress)
    ensures FindTaskFile([a, b], n) == Success(TaskPath(b))
  {
    assert FirstMatch([a, b], n, InProgress, 1) == Some(1);
  }
}
