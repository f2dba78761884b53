/** A list of arguments, printed as one quoted string and read back from it. */
module Commandline {
  import opened Helpers

  // ----- reading

  function SkipSpaces(s: string): (t: string)
    ensures |t| <= |s| && (t == "" || t[0] != ' ')
  {
    if s != "" && s[0] == ' ' then SkipSpaces(s[1..]) else s
  }

  /** The characters up to `stop`, a backslash taking the next one literally, and what follows `stop`. */
  function ReadUntil(s: string, stop: char): (r: (string, string))
    ensures |r.1| <= |s| && (s != "" ==> |r.1| < |s|)
  {
    if s == "" then ("", "")
    else if s[0] == stop then ("", s[1..])
    else
      var n := if s[0] == '\\' && |s| > 1 then 1 else 0;
      var r := ReadUntil(s[n + 1..], stop);
      ([s[n]] + r.0, r.1)
  }

  function ReadArgument(s: string): (r: (string, string))
    requires s != ""
    ensures |r.1| < |s|
  {
    var t := SkipSpaces(s);
    if t != "" && t[0] == '"' then ReadUntil(t[1..], '"') else ReadUntil(t, ' ')
  }

  function Parsed(s: string): seq<string>
    decreases |s|
  {
    if s == "" then []
    else var r := ReadArgument(s); [r.0] + Parsed(r.1)
  }

  // ----- printing

  predicate Special(c: char) { c == '"' || c == '\\' || c == ' ' }

  predicate NeedsQuotes(a: string) {
    exists c <- a :: Special(c)
  }

  function EscapedChar(c: char): string {
    if c == '"' || c == '\\' then ['\\', c] else [c]
  }

  function Escaped(a: string): string {
    if a == "" then "" else EscapedChar(a[0]) + Escaped(a[1..])
  }

  function Quoted(a: string): string {
    if NeedsQuotes(a) then "\"" + Escaped(a) + "\"" else a
  }

  function Printed(args: seq<string>): string {
    if args == [] then ""
    else if |args| == 1 then Quoted(args[0])
    else Quoted(args[0]) + " " + Printed(args[1..])
  }

  class Commandline {
    var args: seq<string>

    constructor (args: seq<string>)
      ensures this.args == args
    {
      this.args := args;
    }

    constructor CreateFromQuotedString(commandline: string)
      ensures args == Parsed(commandline)
    {
      args := [];
      new;
      var i := 0;
      assert commandline[0..] == commandline;
      while i < |commandline|
        invariant 0 <= i <= |commandline|
        invariant args + Parsed(commandline[i..]) == Parsed(commandline)
      {
        hide Parsed, ReadArgument;
        ghost var rest := commandline[i..];
        ParsedFirst(rest);
        var s;
        s, i := ReadNext(commandline, i);
        assert args + ([s] + Parsed(commandline[i..])) == (args + [s]) + Parsed(commandline[i..]);
        args := args + [s];
      }
      assert commandline[i..] == "";
    }

    /** One round of the outer loop: an argument that begins with a quote ends with one, others end at a space. */
    static method ReadNext(commandline: string, start: nat) returns (s: string, i: nat)
      requires start < |commandline|
      ensures start < i <= |commandline| && ReadArgument(commandline[start..]) == (s, commandline[i..])
    {
      hide ReadUntil, SkipSpaces;
      i := SkipSpacesFrom(commandline, start);
      ghost var t := commandline[i..];
      if i < |commandline| && commandline[i] == '"' {
        assert t[1..] == commandline[i + 1..];
        s, i := ReadFrom(commandline, i + 1, '"');
      } else {
        s, i := ReadFrom(commandline, i, ' ');
      }
      assert |commandline[i..]| < |commandline[start..]|;
    }

    static method SkipSpacesFrom(commandline: string, start: nat) returns (i: nat)
      requires start <= |commandline|
      ensures start <= i <= |commandline| && commandline[i..] == SkipSpaces(commandline[start..])
    {
      i := start;
      while i < |commandline| && commandline[i] == ' '
        invariant start <= i <= |commandline|
        invariant SkipSpaces(commandline[i..]) == SkipSpaces(commandline[start..])
      {
        assert commandline[i..][1..] == commandline[i + 1..];
        i := i + 1;
      }
    }

    static method ReadFrom(commandline: string, start: nat, stop: char) returns (s: string, i: nat)
      requires start <= |commandline|
      ensures start <= i <= |commandline| && ReadUntil(commandline[start..], stop) == (s, commandline[i..])
    {
      hide ReadUntil;
      i, s := start, "";
      ghost var all := ReadUntil(commandline[start..], stop);
      while i < |commandline| && commandline[i] != stop
        invariant start <= i <= |commandline|
        invariant all.0 == s + ReadUntil(commandline[i..], stop).0 && all.1 == ReadUntil(commandline[i..], stop).1
      {
        ReadUntilAt(commandline, i, stop);
        ghost var before := s;
        if commandline[i] == '\\' && i + 1 < |commandline| {
          s := s + [commandline[i + 1]];
          i := i + 1;
        } else {
          s := s + [commandline[i]];
        }
        i := i + 1;
        Assoc(before, [s[|s| - 1]], ReadUntil(commandline[i..], stop).0);
      }
      ReadUntilAt(commandline, i, stop);
      assert s + "" == s;
      if i < |commandline| {
        i := i + 1;
      }
    }

    method ToQuotedString() returns (rslt: string)
      ensures rslt == Printed(args)
    {
      rslt := "";
      var i := 0;
      while i < |args|
        invariant 0 <= i <= |args|
        invariant rslt == Printed(args[..i])
      {
        PrintedMore(args[..i], args[i]);
        assert args[..i + 1] == args[..i] + [args[i]];
        if i > 0 {
          rslt := rslt + " ";
        }
        if NeedsQuotes(args[i]) {
          var e := Escape(args[i]);
          rslt := rslt + ("\"" + e + "\"");
        } else {
          rslt := rslt + args[i];
        }
        i := i + 1;
      }
      assert args[..i] == args;
    }

    static method Escape(argument: string) returns (rslt: string)
      ensures rslt == Escaped(argument)
    {
      rslt := "";
      var j := 0;
      assert argument[0..] == argument;
      while j < |argument|
        invariant 0 <= j <= |argument|
        invariant rslt + Escaped(argument[j..]) == Escaped(argument)
      {
        ghost var c, rest := argument[j], Escaped(argument[j + 1..]);
        assert argument[j..][0] == c && argument[j..][1..] == argument[j + 1..];
        Assoc(rslt, EscapedChar(c), rest);
        match argument[j] {
          case '"' => rslt := rslt + "\\\"";
          case '\\' => rslt := rslt + "\\\\";
          case _ => rslt := rslt + [argument[j]];
        }
        j := j + 1;
      }
      assert Escaped(argument[j..]) == "";
    }
  }

  lemma {:induction false} ReadUntilAt(s: string, i: nat, stop: char)
    requires i <= |s|
    ensures var r := ReadUntil(s[i..], stop);
      if i == |s| then r == ("", s[i..])
      else if s[i] == stop then r == ("", s[i + 1..])
      else var n := if s[i] == '\\' && i + 1 < |s| then 1 else 0;
           var next := ReadUntil(s[i + n + 1..], stop);
           r == ([s[i + n]] + next.0, next.1)
  {
    if i + 1 < |s| {
      assert s[i..][2..] == s[i + 2..];
    }
    if i < |s| {
      assert s[i..][1..] == s[i + 1..];
    }
  }

  lemma {:induction false} ParsedFirst(s: string)
    requires s != ""
    ensures Parsed(s) == [ReadArgument(s).0] + Parsed(ReadArgument(s).1)
  {
  }

  lemma {:induction false} PrintedMore(args: seq<string>, a: string)
    ensures Printed(args + [a]) == Printed(args) + (if args == [] then "" else " ") + Quoted(a)
  {
    hide Quoted;
    if |args| == 0 {
    } else if |args| == 1 {
      assert (args + [a])[1..] == [a];
    } else {
      assert (args + [a])[1..] == args[1..] + [a];
      PrintedMore(args[1..], a);
    }
  }

  // ----- any way of writing arguments

  /** `e` writes `a`: every character stands for itself or has a backslash in front; `stop` and backslashes have one. */
  predicate Writes(e: string, a: string, stop: char) {
    if a == "" then e == ""
    else
      || (e != "" && e[0] == a[0] && e[0] != stop && e[0] != '\\' && Writes(e[1..], a[1..], stop))
      || (|e| >= 2 && e[0] == '\\' && e[1] == a[0] && Writes(e[2..], a[1..], stop))
  }

  /** However an argument is written, it is read up to the first stop character that has no backslash, or to the end. */
  lemma {:induction false} ReadsWritten(e: string, a: string, stop: char, t: string)
    requires Writes(e, a, stop) && stop != '\\' && (t == "" || t[0] == stop)
    ensures ReadUntil(e + t, stop) == (a, if t == "" then "" else t[1..])
    decreases |a|
  {
    if a == "" {
      assert e + t == t;
    } else {
      var n := if e[0] == '\\' then 2 else 1;
      ReadsWritten(e[n..], a[1..], stop, t);
      assert (e + t)[n..] == e[n..] + t && (e + t)[0] == e[0] && (e + t)[n - 1] == a[0];
      assert a == [a[0]] + a[1..];
    }
  }

  /** A backslash at the very end stands for itself. */
  lemma {:induction false} ReadsLastBackslash(stop: char)
    requires stop != '\\'
    ensures ReadUntil("\\", stop) == ("\\", "")
  {
    var s := "\\";
    assert s[0] == '\\' && s[1..] == "" && ReadUntil("", stop) == ("", "");
    assert ['\\'] + "" == s;
  }

  function Spaces(n: nat): string {
    if n == 0 then "" else " " + Spaces(n - 1)
  }

  lemma {:induction false} SpacesSkipped(n: nat, s: string)
    requires s == "" || s[0] != ' '
    ensures SkipSpaces(Spaces(n) + s) == s
  {
    if n > 0 {
      SpacesSkipped(n - 1, s);
      assert (Spaces(n) + s)[1..] == Spaces(n - 1) + s && (Spaces(n) + s)[0] == ' ';
    } else {
      assert Spaces(0) + s == s;
    }
  }

  /** Between quotes, behind any number of spaces: the next argument begins right behind the closing quote. */
  lemma {:induction false} ParsedInQuotes(n: nat, e: string, a: string, rest: string)
    requires Writes(e, a, '"')
    ensures Parsed(Spaces(n) + ("\"" + e + "\"" + rest)) == [a] + Parsed(rest)
  {
    var s, t := "\"" + e + "\"" + rest, "\"" + rest;
    ReadsWritten(e, a, '"', t);
    SpacesSkipped(n, s);
    assert s[1..] == e + t && t[1..] == rest && s[0] == '"';
    hide ReadUntil, SkipSpaces, Writes;
    ParsedFirst(Spaces(n) + s);
  }

  /** Without quotes: the argument ends at a space without a backslash, which is dropped, or at the end. */
  lemma {:induction false} ParsedPlain(n: nat, e: string, a: string, t: string)
    requires Writes(e, a, ' ') && e != "" && e[0] != '"' && (t == "" || t[0] == ' ')
    ensures Parsed(Spaces(n) + (e + t)) == [a] + Parsed(if t == "" then "" else t[1..])
  {
    var s := e + t;
    ReadsWritten(e, a, ' ', t);
    assert e[0] != ' ' by { assert a != ""; }
    assert s[0] == e[0];
    SpacesSkipped(n, s);
    hide ReadUntil, SkipSpaces, Writes;
    ParsedFirst(Spaces(n) + s);
  }

  function Backslashed(a: string): nat {
    if a == "" then 0 else (if a[0] == '"' || a[0] == '\\' then 1 else 0) + Backslashed(a[1..])
  }

  /** Printing: without quotes, backslashes and spaces an argument stands for itself, otherwise between quotes. */
  lemma {:induction false} PrintedForm(a: string)
    ensures (forall c <- a :: c != '"' && c != '\\' && c != ' ') ==> Quoted(a) == a
    ensures (exists c <- a :: c == '"' || c == '\\' || c == ' ') ==> Quoted(a) == "\"" + Escaped(a) + "\""
    ensures Writes(Escaped(a), a, '"') && |Escaped(a)| == |a| + Backslashed(a)
  {
    EscapedWrites(a);
  }

  lemma {:induction false} EscapedWrites(a: string)
    ensures Writes(Escaped(a), a, '"') && |Escaped(a)| == |a| + Backslashed(a)
  {
    if a != "" {
      EscapedWrites(a[1..]);
      var e := EscapedChar(a[0]);
      assert Escaped(a)[|e|..] == Escaped(a[1..]);
    }
  }

  // ----- printing and reading back

  lemma {:induction false} ReadsEscaped(a: string, rest: string)
    ensures ReadUntil(Escaped(a) + ("\"" + rest), '"') == (a, rest)
  {
    var t := "\"" + rest;
    if a == "" {
      assert Escaped(a) + t == t && t[1..] == rest;
    } else {
      ReadsEscaped(a[1..], rest);
      var s, e := Escaped(a) + t, EscapedChar(a[0]);
      Assoc(e, Escaped(a[1..]), t);
      assert s[|e|..] == Escaped(a[1..]) + t;
      assert s[0] == e[0] && s[|e| - 1] == a[0];
      assert a == [a[0]] + a[1..];
    }
  }

  lemma {:induction false} ReadsPlain(a: string, t: string)
    requires !NeedsQuotes(a) && (t == "" || t[0] == ' ')
    ensures ReadUntil(a + t, ' ') == (a, if t == "" then "" else t[1..])
  {
    if a == "" {
      assert a + t == t;
    } else {
      assert a[0] in a && !Special(a[0]);
      assert forall c <- a[1..] :: c in a;
      ReadsPlain(a[1..], t);
      assert (a + t)[1..] == a[1..] + t && a == [a[0]] + a[1..];
    }
  }

  /** Reading back one printed argument, with the end of the string or a space behind it. */
  lemma {:induction false} ReadsQuoted(a: string, t: string)
    requires a != "" && (t == "" || t[0] == ' ')
    ensures ReadArgument(Quoted(a) + t) == (a, if NeedsQuotes(a) || t == "" then t else t[1..])
  {
    if NeedsQuotes(a) {
      ReadsQuotedArgument(a, t);
    } else {
      ReadsPlainArgument(a, t);
    }
  }

  lemma {:induction false} ReadsQuotedArgument(a: string, t: string)
    ensures ReadArgument("\"" + Escaped(a) + "\"" + t) == (a, t)
  {
    ReadsEscaped(a, t);
    hide Escaped, ReadUntil;
    var s, u := "\"" + Escaped(a) + "\"" + t, Escaped(a) + ("\"" + t);
    assert s == "\"" + u;
    assert s[0] == '"' && s[1..] == u;
    assert SkipSpaces(s) == s;
  }

  lemma {:induction false} ReadsPlainArgument(a: string, t: string)
    requires a != "" && !NeedsQuotes(a) && (t == "" || t[0] == ' ')
    ensures ReadArgument(a + t) == (a, if t == "" then t else t[1..])
  {
    assert a[0] in a && !Special(a[0]);
    ReadsPlain(a, t);
    hide ReadUntil;
    assert SkipSpaces(a + t) == a + t;
  }

  /** What becomes of a list of arguments that is printed and read back: empty arguments get lost, but for one case. */
  function ReadBack(args: seq<string>): seq<string> {
    if args == [] || args == [""] then []
    else if args[0] == "" then if args[1..] == [""] then [""] else ReadBack(args[1..])
    else if NeedsQuotes(args[0]) && args[1..] == [""] then args
    else [args[0]] + ReadBack(args[1..])
  }

  lemma {:induction false} ParsePrinted(args: seq<string>)
    ensures Parsed(Printed(args)) == ReadBack(args)
  {
    if |args| > 1 {
      var a, rest := args[0], args[1..];
      var t := Printed(rest);
      ParsePrinted(rest);
      PrintedIsEmpty(rest);
      ParsedBehindSpace(t);
      hide Quoted, Printed, ReadArgument;
      assert Printed(args) == Quoted(a) + (" " + t) by { PrintedFirst(args); }
      if a == "" {
        QuotedEmpty();
        assert Printed(args) == " " + t;
      } else {
        ReadsQuoted(a, " " + t);
        assert (" " + t)[1..] == t;
        ParsedFirst(Printed(args));
        assert args == [a] + rest;
      }
    } else if |args| == 1 && args[0] != "" {
      ReadsQuoted(args[0], "");
      assert Quoted(args[0]) + "" == Quoted(args[0]);
      assert args[1..] == [];
    }
  }

  lemma {:induction false} QuotedEmpty()
    ensures Quoted("") == ""
  {
  }

  lemma {:induction false} PrintedFirst(args: seq<string>)
    requires |args| > 1
    ensures Printed(args) == Quoted(args[0]) + (" " + Printed(args[1..]))
  {
  }

  lemma {:induction false} PrintedIsEmpty(args: seq<string>)
    requires args != []
    ensures Printed(args) == "" <==> args == [""]
  {
  }

  lemma {:induction false} ParsedBehindSpace(t: string)
    ensures Parsed(" " + t) == if t == "" then [""] else Parsed(t)
  {
    assert (" " + t)[1..] == t;
    assert SkipSpaces(" " + t) == SkipSpaces(t);
  }

  predicate NoneEmpty(args: seq<string>) {
    forall i | 0 <= i < |args| :: args[i] != ""
  }

  /** An empty last argument behind a quoted one is the only empty argument that is not lost. */
  predicate Survives(args: seq<string>) {
    NoneEmpty(args)
    || (|args| >= 2 && args[|args| - 1] == "" && NeedsQuotes(args[|args| - 2]) && NoneEmpty(args[..|args| - 1]))
  }

  /** Printing and reading back gives the same list exactly if no argument is empty, but for that one case. */
  lemma {:induction false} RoundTrip(args: seq<string>)
    ensures Parsed(Printed(args)) == args <==> Survives(args)
  {
    ParsePrinted(args);
    ReadBackIsSame(args);
  }

  lemma {:induction false} ReadBackIsSame(args: seq<string>)
    ensures |ReadBack(args)| <= |args|
    ensures |ReadBack(args)| == |args| ==> ReadBack(args) == args
    ensures ReadBack(args) == args <==> Survives(args)
  {
    if args != [] {
      var a, rest := args[0], args[1..];
      assert args == [a] + rest;
      ReadBackIsSame(rest);
      SurvivesRest(args);
    }
  }

  lemma {:induction false} SurvivesRest(args: seq<string>)
    requires args != []
    ensures args[0] == "" ==> !Survives(args)
    ensures args[0] != "" && args[1..] == [""] ==> (Survives(args) <==> NeedsQuotes(args[0]))
    ensures args[0] != "" && args[1..] != [""] ==> (Survives(args) <==> Survives(args[1..]))
  {
    var a, rest, last := args[0], args[1..], |args| - 1;
    NoneEmptyRest(args);
    if |args| > 1 {
      NoneEmptyRest(args[..last]);
      assert args[..last][1..] == rest[..last - 1] && rest[last - 1] == args[last];
    }
    hide NoneEmpty;
    if |args| == 2 {
      assert rest == [args[1]] && rest[1..] == [];
      NoneEmptyRest(rest);
      NoneEmptyNone();
    }
  }

  lemma {:induction false} NoneEmptyNone()
    ensures NoneEmpty([])
  {
  }

  lemma {:induction false} NoneEmptyRest(args: seq<string>)
    requires args != []
    ensures NoneEmpty(args) <==> args[0] != "" && NoneEmpty(args[1..])
  {
    if args[0] != "" && NoneEmpty(args[1..]) {
      assert forall i | 0 < i < |args| :: args[i] == args[1..][i - 1];
    }
    if NoneEmpty(args) {
      assert forall i | 0 <= i < |args| - 1 :: args[1..][i] == args[i + 1];
    }
  }
}
