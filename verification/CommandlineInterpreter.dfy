/** The interpreter of command lines, and the server that interprets again what the client sends. */
module CommandlineInterpreter {
  import opened Helpers
  import opened Commandline

  datatype FileParameter = FileParameter(numberOfWindows: int, fileName: string, encoding: string)

  datatype Error =
    | InstanceNameMissing
    | NumberMissing
    | NumberInvalid
    | EncodingMissing
    | FileNameMissing
    | UnknownOption(option: string)
    | FileNameNeeded

  /** What the interpreter has found. */
  datatype Found = Found(
    instanceName: string,
    hasInstanceName: bool,
    hasCloneDefaultConfig: bool,
    hasQuitServer: bool,
    noServer: bool,
    files: seq<FileParameter>)

  const NOTHING_FOUND := Found("", false, false, false, false, [])

  datatype Outcome = Outcome(args: seq<string>, found: Found, error: Option<Error>)

  type FileNames = string -> string
  type Numbers = string -> int

  /** Absolute names are found once and for all, and cannot be mistaken for options. */
  ghost predicate Absolute(absoluteName: FileNames) {
    forall name :: AbsoluteAt(absoluteName, name)
  }

  ghost predicate AbsoluteAt(absoluteName: FileNames, name: string) {
    var a := absoluteName(name);
    absoluteName(a) == a && a != "" && a[0] == '/'
  }

  predicate IsOption(a: string) { a != "" && a[0] == '-' }

  predicate IsAnyOf(a: string, short: string, long: string) { a == short || a == long }

  function Before(args: seq<string>, o: Outcome): Outcome {
    o.(args := args + o.args)
  }

  /** Interpret the rest of a command line, given the options that apply to the next file. */
  function Interpreted(args: seq<string>, found: Found, windows: int, encoding: string,
                       absoluteName: FileNames, number: Numbers): Outcome
    decreases |args|
  {
    if args == [] then Outcome([], found, if windows > 0 then Some(FileNameNeeded) else None)
    else if !IsOption(args[0]) then FileInterpreted(args, found, windows, encoding, absoluteName, number)
    else OptionInterpreted(args, found, windows, encoding, absoluteName, number)
  }

  function FileInterpreted(args: seq<string>, found: Found, windows: int, encoding: string,
                           absoluteName: FileNames, number: Numbers): Outcome
    requires args != []
    decreases |args|, 0
  {
    var name := absoluteName(args[0]);
    var file := FileParameter(windows, name, encoding);
    Before([name], Interpreted(args[1..], found.(files := found.files + [file]), -1, "", absoluteName, number))
  }

  /** What one option leads to: how many arguments it takes, and whether a file name has to follow. */
  datatype OptionStep = Refuse(error: Error) | GoOn(n: nat, found: Found, windows: int, encoding: string, isFile: bool)

  function StepOf(args: seq<string>, found: Found, windows: int, encoding: string, number: Numbers): (step: OptionStep)
    requires args != []
    ensures step.GoOn? ==> 1 <= step.n <= |args| && (step.isFile ==> step.n < |args|)
  {
    var option := args[0];
    var more := |args| > 1;
    if IsAnyOf(option, "-i", "--instance") then
      if !more then Refuse(InstanceNameMissing)
      else GoOn(2, found.(instanceName := args[1], hasInstanceName := true), windows, encoding, false)
    else if option == "-w" then
      if !more then Refuse(NumberMissing)
      else if number(args[1]) < 1 then Refuse(NumberInvalid)
      else GoOn(2, found, number(args[1]), encoding, false)
    else if IsAnyOf(option, "-e", "--encoding") then
      if !more then Refuse(EncodingMissing) else GoOn(2, found, windows, args[1], false)
    else if IsAnyOf(option, "-f", "--file") then
      if !more then Refuse(FileNameMissing) else GoOn(1, found, windows, encoding, true)
    else if IsAnyOf(option, "-cdc", "--clone-default-config") then
      GoOn(1, found.(hasCloneDefaultConfig := true), windows, encoding, false)
    else if IsAnyOf(option, "-qs", "--quit-server") then
      GoOn(1, found.(hasQuitServer := true), windows, encoding, false)
    else if IsAnyOf(option, "-ns", "--no-server") then
      GoOn(1, found.(noServer := true), windows, encoding, false)
    else Refuse(UnknownOption(option))
  }

  function OptionInterpreted(args: seq<string>, found: Found, windows: int, encoding: string,
                             absoluteName: FileNames, number: Numbers): Outcome
    requires args != []
    decreases |args|, 0
  {
    match StepOf(args, found, windows, encoding, number)
    case Refuse(error) => Outcome(args, found, Some(error))
    case GoOn(n, f, w, e, isFile) =>
      Before(args[..n], if isFile then FileInterpreted(args[n..], f, w, e, absoluteName, number)
                        else Interpreted(args[n..], f, w, e, absoluteName, number))
  }

  class CommandlineInterpreter {
    var instanceName: string
    var hasInstanceNameFlag: bool
    var hasCloneDefaultConfigFlag: bool
    var noServerFlag: bool
    var hasQuitServerFlag: bool
    var fileParameterList: seq<FileParameter>

    constructor ()
      ensures State() == NOTHING_FOUND
    {
      instanceName, hasInstanceNameFlag, hasCloneDefaultConfigFlag := "", false, false;
      noServerFlag, hasQuitServerFlag, fileParameterList := false, false, [];
    }

    function State(): Found
      reads this
    {
      Found(instanceName, hasInstanceNameFlag, hasCloneDefaultConfigFlag, hasQuitServerFlag, noServerFlag,
            fileParameterList)
    }

    /** One command option; after `-f` the next argument is a file name whatever it looks like. */
    method DoOption(args: seq<string>, start: nat, windows0: int, encoding0: string, absoluteName: FileNames,
                    number: Numbers)
      returns (i: nat, windows: int, encoding: string, isFile: bool, error: Option<Error>)
      requires start < |args|
      modifies this
      ensures start < i <= |args| || error.Some?
      ensures var o := OptionInterpreted(args[start..], old(State()), windows0, encoding0, absoluteName, number);
        if error.Some? then o == Outcome(args[start..], State(), error)
        else if isFile then
          i < |args|
          && o == Before(args[start..i], FileInterpreted(args[i..], State(), windows, encoding, absoluteName, number))
        else o == Before(args[start..i], Interpreted(args[i..], State(), windows, encoding, absoluteName, number))
    {
      hide Interpreted, FileInterpreted;
      i, windows, encoding, isFile, error := start, windows0, encoding0, false, None;
      var option := args[i];
      assert option == args[start..][0] && args[start..][1..] == args[start + 1..];
      assert args[start..][..1] == args[start..start + 1];
      if start + 1 < |args| {
        assert args[start..][2..] == args[start + 2..] && args[start..][..2] == args[start..start + 2];
      }
      if IsAnyOf(option, "-i", "--instance") {
        i := i + 1;
        if i >= |args| {
          error := Some(InstanceNameMissing);
          return;
        }
        instanceName := args[i];
        hasInstanceNameFlag := true;
      } else if option == "-w" {
        i := i + 1;
        if i >= |args| {
          error := Some(NumberMissing);
          return;
        }
        windows := number(args[i]);
        if windows < 1 {
          error := Some(NumberInvalid);
          return;
        }
      } else if IsAnyOf(option, "-e", "--encoding") {
        i := i + 1;
        if i >= |args| {
          error := Some(EncodingMissing);
          return;
        }
        encoding := args[i];
      } else if IsAnyOf(option, "-f", "--file") {
        i := i + 1;
        if i >= |args| {
          error := Some(FileNameMissing);
          return;
        }
        isFile := true;
        return;
      } else if IsAnyOf(option, "-cdc", "--clone-default-config") {
        hasCloneDefaultConfigFlag := true;
      } else if IsAnyOf(option, "-qs", "--quit-server") {
        hasQuitServerFlag := true;
      } else if IsAnyOf(option, "-ns", "--no-server") {
        noServerFlag := true;
      } else {
        error := Some(UnknownOption(option));
        return;
      }
      i := i + 1;
    }

    /** The inner loop: the options in front of a file name. */
    method DoOptions(args: seq<string>, start: nat, absoluteName: FileNames, number: Numbers)
      returns (i: nat, windows: int, encoding: string, error: Option<Error>)
      requires start < |args|
      modifies this
      ensures start <= i <= |args| || error.Some?
      ensures var o := Before(args[..start], Interpreted(args[start..], old(State()), -1, "", absoluteName, number));
        if error.Some? then o == Outcome(args, State(), error)
        else if i < |args| then
          o == Before(args[..i], FileInterpreted(args[i..], State(), windows, encoding, absoluteName, number))
        else o == Outcome(args, State(), if windows > 0 then Some(FileNameNeeded) else None)
    {
      hide OptionInterpreted, FileInterpreted;
      i, windows, encoding, error := start, -1, "", None;
      ghost var o := Before(args[..start], Interpreted(args[start..], State(), -1, "", absoluteName, number));
      while i < |args| && IsOption(args[i])
        invariant start <= i <= |args| && error == None
        invariant o == Before(args[..i], Interpreted(args[i..], State(), windows, encoding, absoluteName, number))
        decreases |args| - i
      {
        ghost var from := i;
        assert args[i] == args[i..][0];
        var isFile;
        i, windows, encoding, isFile, error := DoOption(args, i, windows, encoding, absoluteName, number);
        if error.Some? {
          assert args[..from] + args[from..] == args;
          return;
        }
        BeforeMore(args, from, i);
        if isFile {
          return;
        }
      }
      if i < |args| {
        assert args[i] == args[i..][0];
      } else {
        assert args[..i] + [] == args;
      }
    }

    /** The file name at `i` is replaced by the absolute one. */
    method TakeFile(commandline: Commandline, i: nat, windows: int, encoding: string, absoluteName: FileNames,
                    ghost number: Numbers)
      requires i < |commandline.args|
      modifies this, commandline
      ensures |commandline.args| == |old(commandline.args)|
      ensures Before(old(commandline.args)[..i],
                     FileInterpreted(old(commandline.args)[i..], old(State()), windows, encoding, absoluteName, number))
           == Before(commandline.args[..i + 1],
                     Interpreted(commandline.args[i + 1..], State(), -1, "", absoluteName, number))
    {
      hide Interpreted;
      ghost var args := commandline.args;
      var fileName := absoluteName(commandline.args[i]);
      commandline.args := commandline.args[i := fileName];
      fileParameterList := fileParameterList + [FileParameter(windows, fileName, encoding)];
      assert args[i..][0] == args[i] && args[i..][1..] == args[i + 1..];
      assert commandline.args[..i + 1] == args[..i] + [fileName] && commandline.args[i + 1..] == args[i + 1..];
      BeforeBoth(args[..i], [fileName], Interpreted(args[i + 1..], State(), -1, "", absoluteName, number));
    }

    /** The file names in the given command line are replaced by absolute ones. */
    method DoCommandline(commandline: Commandline, absoluteName: FileNames,
                         number: Numbers) returns (error: Option<Error>)
      modifies this, commandline
      ensures Outcome(commandline.args, State(), error)
           == Interpreted(old(commandline.args), old(State()), -1, "", absoluteName, number)
    {
      hide Interpreted, FileInterpreted, OptionInterpreted, StepOf;
      ghost var goal := Interpreted(commandline.args, State(), -1, "", absoluteName, number);
      var i, argc := 0, |commandline.args|;
      error := None;
      BeforeNothing(goal);
      assert commandline.args[0..] == commandline.args && commandline.args[..0] == [];
      while i < argc
        invariant 0 <= i <= argc == |commandline.args| && error == None
        invariant goal == Before(commandline.args[..i],
                                 Interpreted(commandline.args[i..], State(), -1, "", absoluteName, number))
      {
        var windows, encoding;
        i, windows, encoding, error := DoOptions(commandline.args, i, absoluteName, number);
        if error.Some? {
          return;
        }
        if i < argc {
          TakeFile(commandline, i, windows, encoding, absoluteName, number);
        } else {
          if windows > 0 {
            error := Some(FileNameNeeded);
          }
          return;
        }
        i := i + 1;
      }
      assert commandline.args[..i] == commandline.args && commandline.args[i..] == [];
      assert commandline.args + [] == commandline.args;
      NothingLeft(State(), absoluteName, number);
    }
  }

  lemma {:induction false} NothingLeft(found: Found, absoluteName: FileNames, number: Numbers)
    ensures Interpreted([], found, -1, "", absoluteName, number) == Outcome([], found, None)
  {
  }

  lemma {:induction false} BeforeBoth(a: seq<string>, b: seq<string>, o: Outcome)
    ensures Before(a, Before(b, o)) == Before(a + b, o)
  {
    assert a + (b + o.args) == (a + b) + o.args;
  }

  lemma {:induction false} BeforeNothing(o: Outcome)
    ensures Before([], o) == o
  {
    assert [] + o.args == o.args;
  }

  lemma {:induction false} BeforeMore(args: seq<string>, i: nat, j: nat)
    requires i <= j <= |args|
    ensures forall o :: Before(args[..i], Before(args[i..j], o)) == Before(args[..j], o)
  {
    forall o ensures Before(args[..i], Before(args[i..j], o)) == Before(args[..j], o) {
      assert args[..i] + (args[i..j] + o.args) == args[..j] + o.args;
    }
  }

  // ----- the client's command line means the same to the server

  /** An option looks no further than the arguments that it takes, but for whether there are more. */
  lemma {:induction false} StepIsLocal(args: seq<string>, other: seq<string>, found: Found, windows: int,
                                       encoding: string, number: Numbers)
    requires args != [] && StepOf(args, found, windows, encoding, number).GoOn?
    requires var n := StepOf(args, found, windows, encoding, number).n; |other| == |args| && other[..n] == args[..n]
    ensures StepOf(other, found, windows, encoding, number) == StepOf(args, found, windows, encoding, number)
  {
    var n := StepOf(args, found, windows, encoding, number).n;
    assert other[0] == other[..n][0] == args[..n][0];
    if n == 2 {
      assert other[1] == other[..n][1] == args[..n][1];
    }
  }

  /** Interpreting a rewritten command line again finds the same and rewrites nothing. */
  lemma {:induction false} RewrittenMeansTheSame(args: seq<string>, found: Found, windows: int, encoding: string,
                                                 absoluteName: FileNames, number: Numbers)
    requires Absolute(absoluteName)
    requires Interpreted(args, found, windows, encoding, absoluteName, number).error == None
    ensures var o := Interpreted(args, found, windows, encoding, absoluteName, number);
      |o.args| == |args| && Interpreted(o.args, found, windows, encoding, absoluteName, number) == o
    decreases |args|, 1
  {
    if args != [] {
      var o := Interpreted(args, found, windows, encoding, absoluteName, number);
      if !IsOption(args[0]) {
        RewrittenFileMeansTheSame(args, found, windows, encoding, absoluteName, number);
        assert AbsoluteAt(absoluteName, args[0]);
      } else {
        hide StepOf;
        var step := StepOf(args, found, windows, encoding, number);
        var n := step.n;
        if step.isFile {
          RewrittenFileMeansTheSame(args[n..], step.found, step.windows, step.encoding, absoluteName, number);
        } else {
          RewrittenMeansTheSame(args[n..], step.found, step.windows, step.encoding, absoluteName, number);
        }
        assert o.args[..n] == args[..n] && o.args[0] == args[..n][0];
        StepIsLocal(args, o.args, found, windows, encoding, number);
      }
    }
  }

  lemma {:induction false} RewrittenFileMeansTheSame(args: seq<string>, found: Found, windows: int, encoding: string,
                                                     absoluteName: FileNames, number: Numbers)
    requires args != [] && Absolute(absoluteName)
    requires FileInterpreted(args, found, windows, encoding, absoluteName, number).error == None
    ensures var o := FileInterpreted(args, found, windows, encoding, absoluteName, number);
      && |o.args| == |args| && o.args[0] == absoluteName(args[0])
      && FileInterpreted(o.args, found, windows, encoding, absoluteName, number) == o
    decreases |args|, 0
  {
    var name := absoluteName(args[0]);
    assert AbsoluteAt(absoluteName, args[0]);
    RewrittenMeansTheSame(args[1..], found.(files := found.files + [FileParameter(windows, name, encoding)]), -1, "",
                          absoluteName, number);
  }

  /** Rewriting makes no argument empty. */
  lemma {:induction false} NoneGetsEmpty(args: seq<string>, found: Found, windows: int, encoding: string,
                                         absoluteName: FileNames, number: Numbers)
    requires Absolute(absoluteName) && NoneEmpty(args)
    ensures NoneEmpty(Interpreted(args, found, windows, encoding, absoluteName, number).args)
    decreases |args|, 1
  {
    if args != [] {
      if !IsOption(args[0]) {
        NoFileGetsEmpty(args, found, windows, encoding, absoluteName, number);
      } else {
        hide StepOf;
        var step := StepOf(args, found, windows, encoding, number);
        if step.GoOn? {
          if step.isFile {
            NoFileGetsEmpty(args[step.n..], step.found, step.windows, step.encoding, absoluteName, number);
          } else {
            NoneGetsEmpty(args[step.n..], step.found, step.windows, step.encoding, absoluteName, number);
          }
        }
      }
    }
  }

  lemma {:induction false} NoFileGetsEmpty(args: seq<string>, found: Found, windows: int, encoding: string,
                                           absoluteName: FileNames, number: Numbers)
    requires args != [] && Absolute(absoluteName) && NoneEmpty(args)
    ensures NoneEmpty(FileInterpreted(args, found, windows, encoding, absoluteName, number).args)
    decreases |args|, 0
  {
    var name := absoluteName(args[0]);
    assert AbsoluteAt(absoluteName, args[0]);
    NoneGetsEmpty(args[1..], found.(files := found.files + [FileParameter(windows, name, encoding)]), -1, "",
                  absoluteName, number);
  }

  /** Rewriting keeps the number of arguments, whether the command line is accepted or not. */
  lemma {:induction false} RewritingKeepsLength(args: seq<string>, found: Found, windows: int, encoding: string,
                                                absoluteName: FileNames, number: Numbers)
    ensures |Interpreted(args, found, windows, encoding, absoluteName, number).args| == |args|
    ensures args != [] ==> |FileInterpreted(args, found, windows, encoding, absoluteName, number).args| == |args|
    decreases |args|
  {
    if args != [] {
      var name := absoluteName(args[0]);
      RewritingKeepsLength(args[1..], found.(files := found.files + [FileParameter(windows, name, encoding)]), -1, "",
                           absoluteName, number);
      hide StepOf;
      var step := StepOf(args, found, windows, encoding, number);
      if step.GoOn? {
        RewritingKeepsLength(args[step.n..], step.found, step.windows, step.encoding, absoluteName, number);
      }
    }
  }

  /**
   * The server gets the same flags, instance name, files and arguments out of what the client sends
   * exactly if the rewritten arguments survive being printed and read back.
   */
  lemma {:induction false} ServerAgrees(args: seq<string>, absoluteName: FileNames, number: Numbers)
    requires Absolute(absoluteName)
    requires Interpreted(args, NOTHING_FOUND, -1, "", absoluteName, number).error == None
    ensures var o := Interpreted(args, NOTHING_FOUND, -1, "", absoluteName, number);
      && (Interpreted(Parsed(Printed(o.args)), NOTHING_FOUND, -1, "", absoluteName, number) == o <==> Survives(o.args))
      && (NoneEmpty(args) ==> Survives(o.args))
  {
    hide Interpreted;
    var o := Interpreted(args, NOTHING_FOUND, -1, "", absoluteName, number);
    if NoneEmpty(args) {
      NoneGetsEmpty(args, NOTHING_FOUND, -1, "", absoluteName, number);
    }
    ParsePrinted(o.args);
    ReadBackIsSame(o.args);
    RewritingKeepsLength(ReadBack(o.args), NOTHING_FOUND, -1, "", absoluteName, number);
    RewrittenMeansTheSame(args, NOTHING_FOUND, -1, "", absoluteName, number);
  }

  /** Client and server, one after the other. */
  method SendToServer(commandline: Commandline, absoluteName: FileNames, number: Numbers)
    returns (accepted: bool, client: Found, server: Found, serverArgs: seq<string>, serverError: Option<Error>)
    requires Absolute(absoluteName)
    modifies commandline
    ensures accepted ==>
      (Survives(commandline.args) <==> serverError == None && server == client && serverArgs == commandline.args)
    ensures accepted && NoneEmpty(old(commandline.args)) ==> Survives(commandline.args)
  {
    accepted, client, server, serverArgs, serverError := true, NOTHING_FOUND, NOTHING_FOUND, [], None;
    ghost var args := commandline.args;
    if |commandline.args| > 0 {
      var clientInterpreter := new CommandlineInterpreter();
      var error := clientInterpreter.DoCommandline(commandline, absoluteName, number);
      accepted, client := error.None?, clientInterpreter.State();
      if accepted {
        ServerAgrees(args, absoluteName, number);
        PrintedIsEmpty(commandline.args) by { RewritingKeepsLength(args, NOTHING_FOUND, -1, "", absoluteName, number); }
      }
      var property := commandline.ToQuotedString();
      if accepted && |property| > 0 {
        var received := new Commandline.CreateFromQuotedString(property);
        var serverInterpreter := new CommandlineInterpreter();
        serverError := serverInterpreter.DoCommandline(received, absoluteName, number);
        server, serverArgs := serverInterpreter.State(), received.args;
      }
    }
  }

  /** An empty argument can change the meaning: the file name is taken for the instance name. */
  lemma {:induction false} EmptyInstanceNameIsLost(absoluteName: FileNames, number: Numbers)
    requires Absolute(absoluteName)
    ensures var o := Interpreted(["-i", "", "f"], NOTHING_FOUND, -1, "", absoluteName, number);
      && o.error == None && |o.found.files| == 1
      && Interpreted(Parsed(Printed(o.args)), NOTHING_FOUND, -1, "", absoluteName, number).found.files == []
  {
    var name := absoluteName("f");
    assert AbsoluteAt(absoluteName, "f");
    var args := ["-i", "", "f"];
    assert args[2..] == ["f"] && args[..2] == ["-i", ""];
    OneFile("f", NOTHING_FOUND.(hasInstanceName := true), "", absoluteName, number);
    var o := Interpreted(args, NOTHING_FOUND, -1, "", absoluteName, number);
    assert o.args == ["-i", "", name];
    ParsePrinted(o.args);
    assert o.args[1..] == ["", name] && ["", name][1..] == [name] && [name][1..] == [];
    assert ReadBack([name]) == [name] + ReadBack([]);
    assert ReadBack(o.args) == ["-i", name];
    var found := NOTHING_FOUND.(instanceName := name, hasInstanceName := true);
    NothingLeft(found, absoluteName, number);
    assert ["-i", name][2..] == [];
    assert OptionInterpreted(["-i", name], NOTHING_FOUND, -1, "", absoluteName, number).found == found;
  }

  /**
   * Lost arguments can go unnoticed: here two empty encodings get lost, but a later one overrides what is left
   * of them, so that the server finds the same although it gets other arguments.
   */
  lemma {:induction false} LossCanGoUnnoticed(absoluteName: FileNames, number: Numbers)
    requires Absolute(absoluteName)
    ensures var o := Interpreted(["-e", "", "-e", "", "-e", "y", "f"], NOTHING_FOUND, -1, "", absoluteName, number);
      var p := Interpreted(Parsed(Printed(o.args)), NOTHING_FOUND, -1, "", absoluteName, number);
      o.error == p.error == None && o.found == p.found && !Survives(o.args)
  {
    hide Interpreted, ReadBack, Parsed, Printed, Survives;
    var name := absoluteName("f");
    assert AbsoluteAt(absoluteName, "f");
    var args := ["-e", "", "-e", "", "-e", "y", "f"];
    EncodingOption("", ["-e", "", "-e", "y", "f"], NOTHING_FOUND, -1, "", absoluteName, number);
    EncodingOption("", ["-e", "y", "f"], NOTHING_FOUND, -1, "", absoluteName, number);
    EncodingOption("y", ["f"], NOTHING_FOUND, -1, "", absoluteName, number);
    OneFile("f", NOTHING_FOUND, "y", absoluteName, number);
    assert ["-e", ""] + ["-e", "", "-e", "y", "f"] == args;
    assert ["-e", ""] + ["-e", "y", "f"] == ["-e", "", "-e", "y", "f"];
    assert ["-e", "y"] + ["f"] == ["-e", "y", "f"];
    var o := Interpreted(args, NOTHING_FOUND, -1, "", absoluteName, number);
    assert o.args == ["-e", "", "-e", "", "-e", "y", name];
    var received := ["-e", "-e", "-e", "y", name];
    ParsePrinted(o.args);
    assert ReadBack(o.args) == received by { ReadBackOfTwoLost(name); }
    EncodingOption("-e", ["-e", "y", name], NOTHING_FOUND, -1, "", absoluteName, number);
    EncodingOption("y", [name], NOTHING_FOUND, -1, "-e", absoluteName, number);
    OneFile(name, NOTHING_FOUND, "y", absoluteName, number);
    assert ["-e", "-e"] + ["-e", "y", name] == received && ["-e", "y"] + [name] == ["-e", "y", name];
    ReadBackIsSame(o.args);
  }

  lemma {:induction false} EncodingOption(a: string, rest: seq<string>, found: Found, windows: int, encoding: string,
                                          absoluteName: FileNames, number: Numbers)
    ensures Interpreted(["-e", a] + rest, found, windows, encoding, absoluteName, number)
         == Before(["-e", a], Interpreted(rest, found, windows, a, absoluteName, number))
  {
    var args := ["-e", a] + rest;
    assert args[2..] == rest && args[..2] == ["-e", a];
    assert StepOf(args, found, windows, encoding, number) == GoOn(2, found, windows, a, false);
  }

  lemma {:induction false} OneFile(a: string, found: Found, encoding: string, absoluteName: FileNames, number: Numbers)
    requires !IsOption(a)
    ensures Interpreted([a], found, -1, encoding, absoluteName, number)
         == Outcome([absoluteName(a)],
                    found.(files := found.files + [FileParameter(-1, absoluteName(a), encoding)]), None)
  {
    var name := absoluteName(a);
    assert [a][1..] == [] && [name] + [] == [name];
    NothingLeft(found.(files := found.files + [FileParameter(-1, name, encoding)]), absoluteName, number);
  }

  lemma {:induction false} ReadBackOfTwoLost(name: string)
    requires name != ""
    ensures ReadBack(["-e", "", "-e", "", "-e", "y", name]) == ["-e", "-e", "-e", "y", name]
  {
    var args := ["-e", "", "-e", "", "-e", "y", name];
    assert !NeedsQuotes("-e") && !NeedsQuotes("y");
    assert [name][1..] == [] && ReadBack([name]) == [name] + ReadBack([]) == [name];
    assert args[5..] == ["y", name] && args[5..][1..] == [name] && ReadBack(args[5..]) == ["y", name];
    assert args[4..][1..] == args[5..] && ReadBack(args[4..]) == ["-e", "y", name];
    assert args[3..][1..] == args[4..] && ReadBack(args[3..]) == ["-e", "y", name];
    assert args[2..][1..] == args[3..] && ReadBack(args[2..]) == ["-e", "-e", "y", name];
    assert args[1..][1..] == args[2..] && ReadBack(args[1..]) == ["-e", "-e", "y", name];
    assert args[0..] == args && ReadBack(args) == ["-e"] + ReadBack(args[1..]);
  }
}
