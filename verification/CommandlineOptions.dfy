/** What the options of a command line mean, in terms of where they stand. */
module CommandlineOptions {
  import opened Helpers
  import opened CommandlineInterpreter
  import Commandline

  datatype Role = AsOption | AsValue | AsFile

  predicate TakesValue(a: string) {
    a in ["-i", "--instance", "-w", "-e", "--encoding"]
  }

  predicate TakesFile(a: string) {
    a == "-f" || a == "--file"
  }

  /** What each argument is: what follows an option that takes a value is its value, what follows `-f` is a file. */
  function Roles(args: seq<string>): (roles: seq<Role>)
    ensures |roles| == |args|
    decreases |args|
  {
    if args == [] then []
    else if args[0] == "" || args[0][0] != '-' then [AsFile] + Roles(args[1..])
    else if |args| > 1 && TakesValue(args[0]) then [AsOption, AsValue] + Roles(args[2..])
    else if |args| > 1 && TakesFile(args[0]) then [AsOption, AsFile] + Roles(args[2..])
    else [AsOption] + Roles(args[1..])
  }

  /** The option `a`, or `b` in its other spelling, stands at `k`. */
  predicate IsGiven(args: seq<string>, k: nat, a: string, b: string)
    requires k < |args|
  {
    Roles(args)[k] == AsOption && (args[k] == a || args[k] == b)
  }

  predicate IsSomewhere(args: seq<string>, a: string, b: string) {
    exists k | 0 <= k < |args| :: IsGiven(args, k, a, b)
  }

  /** Where the option was given last in front of `i`. */
  function LastGiven(args: seq<string>, i: nat, a: string, b: string): (k: Option<nat>)
    requires i <= |args|
    ensures k.Some? ==> k.value < i && IsGiven(args, k.value, a, b)
    ensures forall j | (if k.Some? then k.value + 1 else 0) <= j < i :: !IsGiven(args, j, a, b)
  {
    if i == 0 then None else if IsGiven(args, i - 1, a, b) then Some(i - 1) else LastGiven(args, i - 1, a, b)
  }

  /** Where the option was given last in front of `i` and behind the last file. */
  function LastSinceFile(args: seq<string>, i: nat, a: string, b: string): (k: Option<nat>)
    requires i <= |args|
    ensures k.Some? ==> k.value < i && IsGiven(args, k.value, a, b)
  {
    if i == 0 || Roles(args)[i - 1] == AsFile then None
    else if IsGiven(args, i - 1, a, b) then Some(i - 1) else LastSinceFile(args, i - 1, a, b)
  }

  function FilesBefore(args: seq<string>, i: nat): nat
    requires i <= |args|
  {
    if i == 0 then 0 else FilesBefore(args, i - 1) + if Roles(args)[i - 1] == AsFile then 1 else 0
  }

  /** What follows an option that takes a file is a file, and what follows one that takes a value is none. */
  lemma {:induction false} RoleOfNext(args: seq<string>, k: nat)
    requires k + 1 < |args| && Roles(args)[k] == AsOption
    ensures TakesFile(args[k]) ==> Roles(args)[k + 1] == AsFile
    ensures TakesValue(args[k]) ==> Roles(args)[k + 1] == AsValue
    decreases |args|
  {
    var n := FirstTakes(args);
    if n <= k {
      RolesBehind(args, k);
      RolesBehind(args, k + 1);
      RoleOfNext(args[n..], k - n);
    }
  }

  // ----- one argument, or an option with what follows it

  /** How many arguments the first one takes together with its value or file. */
  function FirstTakes(args: seq<string>): (n: nat)
    requires args != []
    ensures 1 <= n <= |args| && n <= 2
  {
    if args[0] != "" && args[0][0] == '-' && |args| > 1 && (TakesValue(args[0]) || TakesFile(args[0])) then 2 else 1
  }

  lemma {:induction false} RolesBehind(args: seq<string>, k: nat)
    requires args != [] && FirstTakes(args) <= k < |args|
    ensures var n := FirstTakes(args); Roles(args)[k] == Roles(args[n..])[k - n]
    ensures var n := FirstTakes(args); args[k] == args[n..][k - n]
  {
  }

  lemma {:induction false} GivenBehind(args: seq<string>, k: nat, a: string, b: string)
    requires args != [] && FirstTakes(args) <= k < |args|
    ensures IsGiven(args, k, a, b) <==> IsGiven(args[FirstTakes(args)..], k - FirstTakes(args), a, b)
  {
    RolesBehind(args, k);
  }

  /** The first argument is the only place where an option can be given among those that it takes. */
  lemma {:induction false} GivenFirst(args: seq<string>, a: string, b: string)
    requires args != []
    ensures FirstTakes(args) == 2 ==> !IsGiven(args, 1, a, b) && Roles(args)[0] == AsOption
    ensures Roles(args)[0] == AsFile <==> args[0] == "" || args[0][0] != '-'
    ensures FirstTakes(args) == 2 ==> Roles(args)[1] == if TakesFile(args[0]) then AsFile else AsValue
  {
  }

  lemma {:induction false} SomewhereBehind(args: seq<string>, a: string, b: string)
    requires args != []
    ensures IsSomewhere(args, a, b) <==> IsGiven(args, 0, a, b) || IsSomewhere(args[FirstTakes(args)..], a, b)
  {
    hide Roles, IsGiven, FirstTakes;
    var n := FirstTakes(args);
    GivenFirst(args, a, b);
    forall k | n <= k < |args| ensures IsGiven(args, k, a, b) <==> IsGiven(args[n..], k - n, a, b) {
      GivenBehind(args, k, a, b);
    }
    if IsSomewhere(args[n..], a, b) {
      var k :| 0 <= k < |args[n..]| && IsGiven(args[n..], k, a, b);
      assert IsGiven(args, k + n, a, b);
    }
    if IsSomewhere(args, a, b) && !IsGiven(args, 0, a, b) {
      var k :| 0 <= k < |args| && IsGiven(args, k, a, b);
      assert n <= k;
      assert IsGiven(args[n..], k - n, a, b);
    }
  }

  lemma {:induction false} FilesBeforeBehind(args: seq<string>, i: nat)
    requires args != [] && FirstTakes(args) <= i <= |args|
    ensures var n := FirstTakes(args); FilesBefore(args, i) == FilesBefore(args, n) + FilesBefore(args[n..], i - n)
  {
    hide Roles, FirstTakes;
    if i > FirstTakes(args) {
      FilesBeforeBehind(args, i - 1);
      RolesBehind(args, i - 1);
    }
  }

  lemma {:induction false} LastGivenBehind(args: seq<string>, i: nat, a: string, b: string)
    requires args != [] && FirstTakes(args) <= i <= |args|
    ensures var n := FirstTakes(args);
      var k := LastGiven(args[n..], i - n, a, b);
      LastGiven(args, i, a, b) == if k.Some? then Some(k.value + n) else LastGiven(args, n, a, b)
  {
    hide Roles, FirstTakes, IsGiven;
    if i > FirstTakes(args) {
      LastGivenBehind(args, i - 1, a, b);
      GivenBehind(args, i - 1, a, b);
    }
  }

  lemma {:induction false} LastSinceFileBehind(args: seq<string>, i: nat, a: string, b: string)
    requires args != [] && FirstTakes(args) <= i <= |args|
    ensures var n := FirstTakes(args);
      var k := LastSinceFile(args[n..], i - n, a, b);
      LastSinceFile(args, i, a, b)
      == if k.Some? then Some(k.value + n)
         else if FilesBefore(args[n..], i - n) > 0 then None else LastSinceFile(args, n, a, b)
  {
    hide Roles, FirstTakes, IsGiven;
    if i > FirstTakes(args) {
      LastSinceFileBehind(args, i - 1, a, b);
      GivenBehind(args, i - 1, a, b);
      RolesBehind(args, i - 1);
    }
  }

  // ----- the first argument interpreted

  predicate IsFile(a: string) { a == "" || a[0] != '-' }

  predicate IsKnown(a: string) {
    || TakesValue(a) || TakesFile(a)
    || a in ["-cdc", "--clone-default-config", "-qs", "--quit-server", "-ns", "--no-server"]
  }

  /** An option that stands at `k` is known, has what it takes, and its number of windows is positive. */
  predicate IsFine(args: seq<string>, k: nat, number: Numbers)
    requires k < |args|
  {
    && IsKnown(args[k])
    && (TakesValue(args[k]) || TakesFile(args[k]) ==> k + 1 < |args|)
    && (args[k] == "-w" ==> number(args[k + 1]) >= 1)
  }

  /** What has been found, and what applies to the next file. */
  datatype Progress = Progress(found: Found, windows: int, encoding: string)

  function On(args: seq<string>, p: Progress, absoluteName: FileNames, number: Numbers): Outcome {
    Interpreted(args, p.found, p.windows, p.encoding, absoluteName, number)
  }

  function AfterFirst(args: seq<string>, p: Progress, absoluteName: FileNames, number: Numbers): Progress
    requires args != [] && (IsFile(args[0]) || IsFine(args, 0, number))
  {
    var f, a := p.found, args[0];
    if IsFile(a) || TakesFile(a) then
      var name := absoluteName(if IsFile(a) then a else args[1]);
      Progress(f.(files := f.files + [FileParameter(p.windows, name, p.encoding)]), -1, "")
    else
      Progress(Found(if a in ["-i", "--instance"] then args[1] else f.instanceName,
                     f.hasInstanceName || a in ["-i", "--instance"],
                     f.hasCloneDefaultConfig || a in ["-cdc", "--clone-default-config"],
                     f.hasQuitServer || a in ["-qs", "--quit-server"],
                     f.noServer || a in ["-ns", "--no-server"], f.files),
               if a == "-w" then number(args[1]) else p.windows,
               if a in ["-e", "--encoding"] then args[1] else p.encoding)
  }

  function Head(args: seq<string>, absoluteName: FileNames): (head: seq<string>)
    requires args != []
    ensures |head| == FirstTakes(args)
  {
    if IsFile(args[0]) then [absoluteName(args[0])]
    else if |args| > 1 && TakesFile(args[0]) then [args[0], absoluteName(args[1])]
    else args[..FirstTakes(args)]
  }

  lemma {:induction false} StepIs(args: seq<string>, p: Progress, number: Numbers)
    requires args != [] && !IsFile(args[0])
    ensures var step := StepOf(args, p.found, p.windows, p.encoding, number);
      && (step.GoOn? <==> IsFine(args, 0, number))
      && (step.GoOn? ==> (step.isFile <==> TakesFile(args[0])))
      && (step.GoOn? ==> step.n == if TakesValue(args[0]) then 2 else 1)
  {
  }

  lemma {:induction false} StepFinds(args: seq<string>, p: Progress, absoluteName: FileNames, number: Numbers)
    requires args != [] && !IsFile(args[0]) && IsFine(args, 0, number)
    ensures var step := StepOf(args, p.found, p.windows, p.encoding, number);
      step.GoOn? ==>
        step.found == if TakesFile(args[0]) then p.found else AfterFirst(args, p, absoluteName, number).found
  {
    var a := args[0];
    if a in ["-i", "--instance"] {
      assert a !in ["-cdc", "--clone-default-config"] && a !in ["-qs", "--quit-server"] && a !in ["-ns", "--no-server"];
    } else if a in ["-cdc", "--clone-default-config"] {
      assert !TakesValue(a) && !TakesFile(a) && a !in ["-qs", "--quit-server"] && a !in ["-ns", "--no-server"];
    } else if a in ["-qs", "--quit-server"] {
      assert !TakesValue(a) && !TakesFile(a) && a !in ["-ns", "--no-server"];
    } else if a in ["-ns", "--no-server"] {
      assert !TakesValue(a) && !TakesFile(a);
    }
  }

  lemma {:induction false} StepApplies(args: seq<string>, p: Progress, absoluteName: FileNames, number: Numbers)
    requires args != [] && !IsFile(args[0]) && IsFine(args, 0, number)
    ensures var step := StepOf(args, p.found, p.windows, p.encoding, number);
      step.GoOn? ==>
        var q := if TakesFile(args[0]) then p else AfterFirst(args, p, absoluteName, number);
        step.windows == q.windows && step.encoding == q.encoding
  {
  }

  lemma {:induction false} StepRefuses(args: seq<string>, p: Progress, number: Numbers)
    requires args != [] && !IsFine(args, 0, number)
    ensures StepOf(args, p.found, p.windows, p.encoding, number) == Refuse(FirstError(args))
  {
  }

  lemma {:induction false} FirstStep(args: seq<string>, p: Progress, absoluteName: FileNames, number: Numbers)
    requires args != [] && (IsFile(args[0]) || IsFine(args, 0, number))
    ensures On(args, p, absoluteName, number)
         == Before(Head(args, absoluteName),
                   On(args[FirstTakes(args)..], AfterFirst(args, p, absoluteName, number), absoluteName, number))
  {
    var q, n := AfterFirst(args, p, absoluteName, number), FirstTakes(args);
    if IsFile(args[0]) {
      assert On(args, p, absoluteName, number)
          == FileInterpreted(args, p.found, p.windows, p.encoding, absoluteName, number);
    } else {
      StepIs(args, p, number);
      StepFinds(args, p, absoluteName, number);
      StepApplies(args, p, absoluteName, number);
      assert TakesValue(args[0]) || TakesFile(args[0]) ==> n == 2;
      assert On(args, p, absoluteName, number)
          == OptionInterpreted(args, p.found, p.windows, p.encoding, absoluteName, number);
      if TakesFile(args[0]) {
        assert !TakesValue(args[0]);
        hide StepOf, IsFine, TakesValue;
        assert args[1..][1..] == args[2..] && args[..1] == [args[0]];
        assert FileInterpreted(args[1..], p.found, p.windows, p.encoding, absoluteName, number)
            == Before([absoluteName(args[1])], On(args[2..], q, absoluteName, number));
        BeforeBoth([args[0]], [absoluteName(args[1])], On(args[2..], q, absoluteName, number));
      }
    }
  }

  /** The error for an option that is unknown, lacks what it takes or has a bad number. */
  lemma {:induction false} FirstRefused(args: seq<string>, p: Progress, absoluteName: FileNames, number: Numbers)
    requires args != [] && !IsFile(args[0]) && !IsFine(args, 0, number)
    ensures On(args, p, absoluteName, number) == Outcome(args, p.found, Some(FirstError(args)))
  {
    StepRefuses(args, p, number);
    hide FirstError, IsFine, StepOf;
    assert On(args, p, absoluteName, number)
        == OptionInterpreted(args, p.found, p.windows, p.encoding, absoluteName, number);
  }

  function FirstError(args: seq<string>): Error
    requires args != []
  {
    if args[0] in ["-i", "--instance"] then InstanceNameMissing
    else if args[0] in ["-e", "--encoding"] then EncodingMissing
    else if args[0] in ["-f", "--file"] then FileNameMissing
    else if args[0] == "-w" then if |args| == 1 then NumberMissing else NumberInvalid
    else UnknownOption(args[0])
  }

  lemma {:induction false} FirstAccepted(args: seq<string>, p: Progress, absoluteName: FileNames, number: Numbers)
    requires args != [] && On(args, p, absoluteName, number).error == None
    ensures IsFile(args[0]) || IsFine(args, 0, number)
    ensures var rest := On(args[FirstTakes(args)..], AfterFirst(args, p, absoluteName, number), absoluteName, number);
      rest.error == None
      && On(args, p, absoluteName, number) == Outcome(Head(args, absoluteName) + rest.args, rest.found, None)
  {
    hide On, Head, FirstTakes, AfterFirst, IsFine;
    if !IsFile(args[0]) && !IsFine(args, 0, number) {
      FirstRefused(args, p, absoluteName, number);
    }
    FirstStep(args, p, absoluteName, number);
  }

  // ----- whole command lines

  /** Each flag is set afterwards exactly if it was before or one of its two spellings is given as an option. */
  lemma {:induction false} FlagsAreGiven(args: seq<string>, p: Progress, absoluteName: FileNames, number: Numbers)
    requires On(args, p, absoluteName, number).error == None
    ensures var f := On(args, p, absoluteName, number).found;
      && (f.hasInstanceName <==> p.found.hasInstanceName || IsSomewhere(args, "-i", "--instance"))
      && (f.hasCloneDefaultConfig
          <==> p.found.hasCloneDefaultConfig || IsSomewhere(args, "-cdc", "--clone-default-config"))
      && (f.hasQuitServer <==> p.found.hasQuitServer || IsSomewhere(args, "-qs", "--quit-server"))
      && (f.noServer <==> p.found.noServer || IsSomewhere(args, "-ns", "--no-server"))
    decreases |args|
  {
    if args != [] {
      hide On, Head, FirstTakes, AfterFirst, IsFine, IsSomewhere, IsGiven, IsFile;
      FirstAccepted(args, p, absoluteName, number);
      FirstFlags(args, p, absoluteName, number);
      var rest, q := args[FirstTakes(args)..], AfterFirst(args, p, absoluteName, number);
      SomewhereBehind(args, "-i", "--instance");
      SomewhereBehind(args, "-cdc", "--clone-default-config");
      SomewhereBehind(args, "-qs", "--quit-server");
      SomewhereBehind(args, "-ns", "--no-server");
      FlagsAreGiven(rest, q, absoluteName, number);
    }
  }

  lemma {:induction false} FirstFlags(args: seq<string>, p: Progress, absoluteName: FileNames, number: Numbers)
    requires args != [] && (IsFile(args[0]) || IsFine(args, 0, number))
    ensures var f := AfterFirst(args, p, absoluteName, number).found;
      && (f.hasInstanceName <==> p.found.hasInstanceName || IsGiven(args, 0, "-i", "--instance"))
      && (f.hasCloneDefaultConfig
          <==> p.found.hasCloneDefaultConfig || IsGiven(args, 0, "-cdc", "--clone-default-config"))
      && (f.hasQuitServer <==> p.found.hasQuitServer || IsGiven(args, 0, "-qs", "--quit-server"))
      && (f.noServer <==> p.found.noServer || IsGiven(args, 0, "-ns", "--no-server"))
  {
    assert Roles(args)[0] == if IsFile(args[0]) then AsFile else AsOption;
    hide Roles, IsFine;
  }

  /** The instance name is the value of the option that gives it last. */
  lemma {:induction false} InstanceNameIsLast(args: seq<string>, p: Progress, absoluteName: FileNames, number: Numbers)
    requires On(args, p, absoluteName, number).error == None
    ensures var k := LastGiven(args, |args|, "-i", "--instance");
      if k.None? then On(args, p, absoluteName, number).found.instanceName == p.found.instanceName
      else k.value + 1 < |args| && On(args, p, absoluteName, number).found.instanceName == args[k.value + 1]
    decreases |args|
  {
    if args != [] {
      hide On, Head, FirstTakes, AfterFirst, IsFine, LastGiven, IsFile;
      FirstAccepted(args, p, absoluteName, number);
      FirstInstanceName(args, p, absoluteName, number);
      var n, q := FirstTakes(args), AfterFirst(args, p, absoluteName, number);
      LastGivenBehind(args, |args|, "-i", "--instance");
      InstanceNameIsLast(args[n..], q, absoluteName, number);
    }
  }

  lemma {:induction false} FirstInstanceName(args: seq<string>, p: Progress, absoluteName: FileNames, number: Numbers)
    requires args != [] && (IsFile(args[0]) || IsFine(args, 0, number))
    ensures var k := LastGiven(args, FirstTakes(args), "-i", "--instance");
      AfterFirst(args, p, absoluteName, number).found.instanceName
      == if k.None? then p.found.instanceName else if k.value + 1 < |args| then args[k.value + 1] else ""
    ensures var k := LastGiven(args, FirstTakes(args), "-i", "--instance"); k.Some? ==> k.value + 1 < |args|
  {
    GivenFirst(args, "-i", "--instance");
    assert LastGiven(args, 1, "-i", "--instance") == if IsGiven(args, 0, "-i", "--instance") then Some(0) else None;
    assert Roles(args)[0] == if IsFile(args[0]) then AsFile else AsOption;
    hide Roles;
  }

  /** File names become absolute, and nothing else changes. */
  predicate IsRewritten(args: seq<string>, i: nat, after: string, absoluteName: FileNames)
    requires i < |args|
  {
    after == if Roles(args)[i] == AsFile then absoluteName(args[i]) else args[i]
  }

  lemma {:induction false} FileNamesAreRewritten(args: seq<string>, p: Progress, absoluteName: FileNames,
                                                 number: Numbers)
    requires On(args, p, absoluteName, number).error == None
    ensures var after := On(args, p, absoluteName, number).args;
      |after| == |args| && forall i | 0 <= i < |args| :: IsRewritten(args, i, after[i], absoluteName)
    decreases |args|
  {
    if args == [] {
      assert On(args, p, absoluteName, number).args == [];
    } else {
      hide On, Head, FirstTakes, AfterFirst, IsFine, IsFile, IsRewritten;
      FirstAccepted(args, p, absoluteName, number);
      var n, q := FirstTakes(args), AfterFirst(args, p, absoluteName, number);
      FileNamesAreRewritten(args[n..], q, absoluteName, number);
      AllRewritten(args, On(args[n..], q, absoluteName, number).args, absoluteName);
    }
  }

  lemma {:induction false} AllRewritten(args: seq<string>, rest: seq<string>, absoluteName: FileNames)
    requires args != [] && |rest| == |args| - FirstTakes(args)
    requires forall i | 0 <= i < |rest| :: IsRewritten(args[FirstTakes(args)..], i, rest[i], absoluteName)
    ensures var after := Head(args, absoluteName) + rest;
      |after| == |args| && forall i | 0 <= i < |args| :: IsRewritten(args, i, after[i], absoluteName)
  {
    HeadIsRewritten(args, absoluteName);
    hide Head, FirstTakes, IsRewritten;
    var n, after := FirstTakes(args), Head(args, absoluteName) + rest;
    forall i | 0 <= i < |args| ensures IsRewritten(args, i, after[i], absoluteName) {
      if n <= i {
        RewrittenBehind(args, i, rest[i - n], absoluteName);
      }
    }
  }

  lemma {:induction false} RewrittenBehind(args: seq<string>, i: nat, after: string, absoluteName: FileNames)
    requires args != [] && FirstTakes(args) <= i < |args|
    requires IsRewritten(args[FirstTakes(args)..], i - FirstTakes(args), after, absoluteName)
    ensures IsRewritten(args, i, after, absoluteName)
  {
    RolesBehind(args, i);
  }

  lemma {:induction false} HeadIsRewritten(args: seq<string>, absoluteName: FileNames)
    requires args != []
    ensures forall i | 0 <= i < FirstTakes(args) :: IsRewritten(args, i, Head(args, absoluteName)[i], absoluteName)
  {
    GivenFirst(args, "", "");
    hide Roles;
  }

  /** What applies to the file at `i`: the last value since the file before, or what the line began with, or nothing. */
  predicate CarriesOptions(args: seq<string>, i: nat, p: Progress, file: FileParameter, number: Numbers)
    requires i < |args|
  {
    var w, e := LastSinceFile(args, i, "-w", "-w"), LastSinceFile(args, i, "-e", "--encoding");
    && (if w.Some? then w.value + 1 < |args| && file.numberOfWindows == number(args[w.value + 1])
        else file.numberOfWindows == if FilesBefore(args, i) == 0 then p.windows else -1)
    && (if e.Some? then e.value + 1 < |args| && file.encoding == args[e.value + 1]
        else file.encoding == if FilesBefore(args, i) == 0 then p.encoding else "")
  }

  lemma {:induction false} FirstFile(args: seq<string>, p: Progress, absoluteName: FileNames, number: Numbers)
    requires args != [] && (IsFile(args[0]) || IsFine(args, 0, number))
    ensures var n, files := FirstTakes(args), AfterFirst(args, p, absoluteName, number).found.files;
      && FilesBefore(args, n) <= 1
      && (FilesBefore(args, n) == 0 ==> files == p.found.files)
      && forall i | 0 <= i < n && Roles(args)[i] == AsFile ::
           && FilesBefore(args, i) == 0 && FilesBefore(args, n) == 1
           && |files| == |p.found.files| + 1 && files[..|p.found.files|] == p.found.files
           && files[|p.found.files|].fileName == absoluteName(args[i])
           && CarriesOptions(args, i, p, files[|p.found.files|], number)
    ensures FilesBefore(args, FirstTakes(args)) == 1 ==>
      AfterFirst(args, p, absoluteName, number).found.files[..|p.found.files|] == p.found.files
      && |AfterFirst(args, p, absoluteName, number).found.files| == |p.found.files| + 1
  {
    GivenFirst(args, "-w", "-w");
    GivenFirst(args, "-e", "--encoding");
    var n := FirstTakes(args);
    assert FilesBefore(args, 1) == if Roles(args)[0] == AsFile then 1 else 0;
    assert n == 1 ==> Roles(args)[0] == if IsFile(args[0]) then AsFile else AsOption;
    hide Roles;
  }

  /** What applies behind the first argument, seen from the whole line. */
  lemma {:induction false} FirstApplies(args: seq<string>, p: Progress, absoluteName: FileNames, number: Numbers)
    requires args != [] && (IsFile(args[0]) || IsFine(args, 0, number))
    ensures var n, q := FirstTakes(args), AfterFirst(args, p, absoluteName, number);
      var w, e := LastSinceFile(args, n, "-w", "-w"), LastSinceFile(args, n, "-e", "--encoding");
      && (FilesBefore(args, n) > 0 ==> w == None && e == None && q.windows == -1 && q.encoding == "")
      && (w.Some? ==> w.value + 1 < |args| && 1 <= q.windows == number(args[w.value + 1]))
      && (e.Some? ==> e.value + 1 < |args| && q.encoding == args[e.value + 1])
      && (FilesBefore(args, n) == 0 && w == None ==> q.windows == p.windows)
      && (FilesBefore(args, n) == 0 && e == None ==> q.encoding == p.encoding)
  {
    GivenFirst(args, "-w", "-w");
    GivenFirst(args, "-e", "--encoding");
    var n := FirstTakes(args);
    assert FilesBefore(args, 1) == if Roles(args)[0] == AsFile then 1 else 0;
    assert n == 1 ==> Roles(args)[0] == if IsFile(args[0]) then AsFile else AsOption;
    assert LastSinceFile(args, 1, "-w", "-w") == if IsGiven(args, 0, "-w", "-w") then Some(0) else None;
    assert LastSinceFile(args, 1, "-e", "--encoding") == if IsGiven(args, 0, "-e", "--encoding") then Some(0) else None;
    hide Roles;
  }

  lemma {:induction false} CarriesBehind(args: seq<string>, i: nat, p: Progress, file: FileParameter,
                                         absoluteName: FileNames, number: Numbers)
    requires args != [] && (IsFile(args[0]) || IsFine(args, 0, number)) && FirstTakes(args) <= i < |args|
    requires var n := FirstTakes(args);
      CarriesOptions(args[n..], i - n, AfterFirst(args, p, absoluteName, number), file, number)
    ensures CarriesOptions(args, i, p, file, number)
  {
    hide FirstTakes, AfterFirst, IsFine, IsFile, Roles, FilesBefore, LastSinceFile;
    FirstApplies(args, p, absoluteName, number);
    LastSinceFileBehind(args, i, "-w", "-w");
    LastSinceFileBehind(args, i, "-e", "--encoding");
    FilesBeforeBehind(args, i);
  }

  /** The file at `i` is found in its turn, with its absolute name and the options in front of it. */
  predicate IsFound(args: seq<string>, i: nat, p: Progress, files: seq<FileParameter>, absoluteName: FileNames,
                    number: Numbers)
    requires i < |args|
  {
    var j := |p.found.files| + FilesBefore(args, i);
    j < |files| && files[j].fileName == absoluteName(args[i]) && CarriesOptions(args, i, p, files[j], number)
  }

  /** The files found are those of the line in their order, and no others. */
  lemma {:induction false} FilesCarryOptions(args: seq<string>, p: Progress, absoluteName: FileNames, number: Numbers)
    requires On(args, p, absoluteName, number).error == None
    ensures var files, m := On(args, p, absoluteName, number).found.files, |p.found.files|;
      && |files| == m + FilesBefore(args, |args|) && files[..m] == p.found.files
      && forall i | 0 <= i < |args| && Roles(args)[i] == AsFile :: IsFound(args, i, p, files, absoluteName, number)
    decreases |args|
  {
    if args != [] {
      FirstAccepted(args, p, absoluteName, number);
      FirstFile(args, p, absoluteName, number);
      var n, q := FirstTakes(args), AfterFirst(args, p, absoluteName, number);
      hide On, Head, FirstTakes, AfterFirst, IsFine, IsFile, Roles, CarriesOptions, FilesBefore, IsFound;
      FilesCarryOptions(args[n..], q, absoluteName, number);
      FilesBeforeBehind(args, |args|);
      var files, m := On(args, p, absoluteName, number).found.files, |p.found.files|;
      assert files[..m] == files[..|q.found.files|][..m];
      forall i | 0 <= i < |args| && Roles(args)[i] == AsFile
        ensures IsFound(args, i, p, files, absoluteName, number)
      {
        if n <= i {
          RolesBehind(args, i);
          FoundBehind(args, i, p, files, absoluteName, number);
        } else {
          FoundFirst(args, i, p, files, absoluteName, number);
        }
      }
    } else {
      assert On(args, p, absoluteName, number).found == p.found;
    }
  }

  lemma {:induction false} FoundFirst(args: seq<string>, i: nat, p: Progress, files: seq<FileParameter>,
                                      absoluteName: FileNames, number: Numbers)
    requires args != [] && (IsFile(args[0]) || IsFine(args, 0, number))
    requires i < FirstTakes(args) && Roles(args)[i] == AsFile
    requires var prior := AfterFirst(args, p, absoluteName, number).found.files;
      |prior| <= |files| && files[..|prior|] == prior
    ensures IsFound(args, i, p, files, absoluteName, number)
  {
    FirstFile(args, p, absoluteName, number);
    hide FirstTakes, AfterFirst, IsFine, IsFile, Roles, CarriesOptions, FilesBefore;
    var prior := AfterFirst(args, p, absoluteName, number).found.files;
    assert files[|p.found.files|] == prior[|p.found.files|];
  }

  lemma {:induction false} FoundBehind(args: seq<string>, i: nat, p: Progress, files: seq<FileParameter>,
                                       absoluteName: FileNames, number: Numbers)
    requires args != [] && (IsFile(args[0]) || IsFine(args, 0, number)) && FirstTakes(args) <= i < |args|
    requires var n := FirstTakes(args);
      IsFound(args[n..], i - n, AfterFirst(args, p, absoluteName, number), files, absoluteName, number)
    ensures IsFound(args, i, p, files, absoluteName, number)
  {
    hide FirstTakes, AfterFirst, IsFine, IsFile, Roles, CarriesOptions, FilesBefore;
    FirstFile(args, p, absoluteName, number);
    FilesBeforeBehind(args, i);
    RolesBehind(args, i);
    CarriesBehind(args, i, p, files[|p.found.files| + FilesBefore(args, i)], absoluteName, number);
  }

  // ----- what is accepted

  predicate AllFine(args: seq<string>, number: Numbers) {
    forall k | 0 <= k < |args| && Roles(args)[k] == AsOption :: IsFine(args, k, number)
  }

  /** A number of windows is waiting for a file at the end of the line. */
  predicate WaitsForFile(args: seq<string>, p: Progress) {
    LastSinceFile(args, |args|, "-w", "-w").Some? || (FilesBefore(args, |args|) == 0 && p.windows > 0)
  }

  lemma {:induction false} FineBehind(args: seq<string>, number: Numbers)
    requires args != [] && (IsFile(args[0]) || IsFine(args, 0, number))
    ensures AllFine(args, number) <==> AllFine(args[FirstTakes(args)..], number)
  {
    var n := FirstTakes(args);
    GivenFirst(args, "", "");
    assert n == 1 ==> Roles(args)[0] == if IsFile(args[0]) then AsFile else AsOption;
    hide FirstTakes, Roles, IsFile, IsKnown, TakesValue, TakesFile;
    var rest := args[n..];
    forall k | n <= k < |args|
      ensures Roles(args)[k] == Roles(rest)[k - n] && (IsFine(args, k, number) <==> IsFine(rest, k - n, number))
    {
      RolesBehind(args, k);
    }
    if AllFine(args, number) {
      forall k | 0 <= k < |rest| && Roles(rest)[k] == AsOption ensures IsFine(rest, k, number) {
        assert Roles(args)[k + n] == Roles(rest)[k + n - n];
      }
    }
  }

  lemma {:induction false} WaitsBehind(args: seq<string>, p: Progress, absoluteName: FileNames, number: Numbers)
    requires args != [] && (IsFile(args[0]) || IsFine(args, 0, number))
    ensures WaitsForFile(args, p)
            <==> WaitsForFile(args[FirstTakes(args)..], AfterFirst(args, p, absoluteName, number))
  {
    hide FirstTakes, AfterFirst, IsFine, IsFile, Roles, LastSinceFile, FilesBefore;
    FirstApplies(args, p, absoluteName, number);
    LastSinceFileBehind(args, |args|, "-w", "-w");
    FilesBeforeBehind(args, |args|);
  }

  /** A line is accepted exactly if all its options are fine and no number of windows waits for a file at its end. */
  lemma {:induction false} AcceptedIff(args: seq<string>, p: Progress, absoluteName: FileNames, number: Numbers)
    ensures On(args, p, absoluteName, number).error == None <==> AllFine(args, number) && !WaitsForFile(args, p)
    decreases |args|
  {
    if args != [] {
      if IsFile(args[0]) || IsFine(args, 0, number) {
        var n, q := FirstTakes(args), AfterFirst(args, p, absoluteName, number);
        FirstStep(args, p, absoluteName, number);
        FineBehind(args, number);
        WaitsBehind(args, p, absoluteName, number);
        hide On, Head, FirstTakes, AfterFirst, IsFine, IsFile, Roles, AllFine, WaitsForFile;
        AcceptedIff(args[n..], q, absoluteName, number);
      } else {
        FirstRefused(args, p, absoluteName, number);
        assert Roles(args)[0] == AsOption;
      }
    }
  }

  /** All that an accepted line means. */
  predicate IsMeaning(args: seq<string>, found: Found, rewritten: seq<string>, absoluteName: FileNames,
                      number: Numbers) {
    && (found.hasCloneDefaultConfig <==> IsSomewhere(args, "-cdc", "--clone-default-config"))
    && (found.hasQuitServer <==> IsSomewhere(args, "-qs", "--quit-server"))
    && (found.noServer <==> IsSomewhere(args, "-ns", "--no-server"))
    && (found.hasInstanceName <==> IsSomewhere(args, "-i", "--instance"))
    && (match LastGiven(args, |args|, "-i", "--instance")
        case None => found.instanceName == ""
        case Some(k) => k + 1 < |args| && found.instanceName == args[k + 1])
    && |found.files| == FilesBefore(args, |args|)
    && (forall i | 0 <= i < |args| && Roles(args)[i] == AsFile ::
          IsFound(args, i, START, found.files, absoluteName, number))
    && |rewritten| == |args|
    && forall i | 0 <= i < |args| :: IsRewritten(args, i, rewritten[i], absoluteName)
  }

  lemma {:induction false} MeaningIs(args: seq<string>, absoluteName: FileNames, number: Numbers)
    requires On(args, START, absoluteName, number).error == None
    ensures var o := On(args, START, absoluteName, number); IsMeaning(args, o.found, o.args, absoluteName, number)
  {
    hide On, IsSomewhere, Roles, LastGiven, FilesBefore, IsFound, IsRewritten;
    FlagsAreGiven(args, START, absoluteName, number);
    InstanceNameIsLast(args, START, absoluteName, number);
    FilesCarryOptions(args, START, absoluteName, number);
    FileNamesAreRewritten(args, START, absoluteName, number);
  }

  /** A new interpreter takes the line for what it means, or refuses it. */
  method Interpret(commandline: Commandline.Commandline, absoluteName: FileNames, number: Numbers)
    returns (found: Found, error: Option<Error>)
    modifies commandline
    ensures error == None <==> AllFine(old(commandline.args), number) && !WaitsForFile(old(commandline.args), START)
    ensures error == None ==> IsMeaning(old(commandline.args), found, commandline.args, absoluteName, number)
  {
    ghost var args := commandline.args;
    var interpreter := new CommandlineInterpreter();
    error := interpreter.DoCommandline(commandline, absoluteName, number);
    found := interpreter.State();
    assert On(args, START, absoluteName, number) == Outcome(commandline.args, found, error);
    hide On, AllFine, WaitsForFile, IsMeaning;
    AcceptedIff(args, START, absoluteName, number);
    if error == None {
      MeaningIs(args, absoluteName, number);
    }
  }

  const START := Progress(NOTHING_FOUND, -1, "")

  /** `-qs` asks for the server to quit, and for nothing else. */
  lemma {:induction false} QuitServer(absoluteName: FileNames, number: Numbers)
    ensures Interpreted(["-qs"], NOTHING_FOUND, -1, "", absoluteName, number)
         == Outcome(["-qs"], NOTHING_FOUND.(hasQuitServer := true), None)
  {
    var args := ["-qs"];
    var p := AfterFirst(args, START, absoluteName, number);
    FirstStep(args, START, absoluteName, number);
    assert args[1..] == [] && Head(args, absoluteName) == args && args + [] == args;
    assert On([], p, absoluteName, number) == Outcome([], p.found, None);
  }
}
