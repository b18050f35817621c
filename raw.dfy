/**
  The `raw` command of the CLI (cmd/raw.go): the subcommands built from the commands
  file, the URL a subcommand calls, and the key/secret resolution from the secret file.

  The commands file arrives already decoded into `RawCommand` records, the secret file
  as what reading it gives, and configuration values as parameters. The HTTP call
  itself is not modelled: a subcommand's run ends in the `ApiCall` it would make.
 */
module RawCli {
  import opened Runtime
  import opened Text
  import opened PathUtil

  /** One entry of the commands file. */
  datatype RawCommand = RawCommand(
    moduleName: string,
    controller: string,
    command: string,
    httpMethod: string,
    parameters: seq<string>)

  /** A cobra command group: subcommands of one module and controller are listed together. */
  datatype Group = Group(id: string, title: string)

  /** A subcommand of `raw`: its `Use`, group, help texts, minimum argument count and HTTP method annotation. */
  datatype SubCommand = SubCommand(
    use: string,
    groupId: string,
    short: string,
    long: string,
    minArgs: nat,
    httpMethod: string)

  const DocsBase := "https://docs.opnsense.org/development/api/"

  // ---------------------------------------------------------------------------
  // Building one subcommand
  // ---------------------------------------------------------------------------

  /** The API category: the base name of the commands file without its extension. */
  function ApiCategory(commandsFile: string): (r: string)
    ensures var b := Base(commandsFile); r + Ext(b) == b
    ensures '/' !in r || Base(commandsFile) == "/"
  {
    var b := Base(commandsFile);
    StemBeforeExt(commandsFile);
    b[..|b| - |Ext(b)|]
  }

  /** The base name of `dir/file` is `file` when `file` holds no `/`. */
  lemma BaseOfFile(dir: string, file: string)
    requires file != "" && '/' !in file
    ensures Base(dir + "/" + file) == file
  {
    var p := dir + "/" + file;
    assert p[|p| - 1] == file[|file| - 1];
    assert TrimTrailingSlashes(p) == p;
    assert p[|dir|] == '/';
    assert forall j :: |dir| < j < |p| ==> p[j] == file[j - |dir| - 1];
  }

  /** The extension of `name.ext` is `.ext` when `ext` holds no `.` or `/`. */
  lemma ExtOfFile(name: string, ext: string)
    requires '/' !in name && '/' !in ext && '.' !in ext
    ensures Ext(name + "." + ext) == "." + ext
  {
    var b := name + "." + ext;
    assert b[|name|] == '.';
    assert forall j :: |name| < j < |b| ==> b[j] == ext[j - |name| - 1];
    assert '/' !in b;
  }

  /** For a file `name.ext` in any directory, the category is `name`: only the last extension is removed. */
  lemma ApiCategoryOfFile(dir: string, name: string, ext: string)
    requires '/' !in name && '/' !in ext && '.' !in ext
    ensures ApiCategory(dir + "/" + name + "." + ext) == name
  {
    assert dir + "/" + name + "." + ext == dir + "/" + (name + "." + ext);
    BaseOfFile(dir, name + "." + ext);
    ExtOfFile(name, ext);
  }

  function GroupOf(c: RawCommand): Group
  {
    Group(c.moduleName + "/" + c.controller, "Module: " + c.moduleName + ", Controller: " + c.controller)
  }

  function UseOf(c: RawCommand): string
  {
    c.moduleName + "/" + c.controller + "/" + c.command
  }

  /** Go's `%s` of a `[]string`: the elements separated by spaces, in brackets. */
  function FormatList(xs: seq<string>): string
  {
    "[" + Join(xs, ' ') + "]"
  }

  /** The short help: the method, followed by the argument list only when there are parameters. */
  function ShortOf(c: RawCommand): string
  {
    var short := "Method: " + c.httpMethod;
    if |c.parameters| > 0 then short + ", Arguments: " + FormatList(c.parameters) else short
  }

  /** The short help starts with the method; it goes on, with the argument list, exactly when there are parameters. */
  lemma ShortOfSpec(c: RawCommand)
    ensures var r, short := ShortOf(c), "Method: " + c.httpMethod;
      && HasPrefix(r, short)
      && (|r| == |short| <==> |c.parameters| == 0)
      && (|c.parameters| > 0 ==> r[|short|..] == ", Arguments: " + FormatList(c.parameters))
  {
  }

  /** The long help: the documentation page of the module in the API category, then the short help. */
  function LongOf(apiCategory: string, c: RawCommand): string
  {
    "\n" + DocsBase + apiCategory + "/" + c.moduleName + ".html\n\n" + ShortOf(c)
  }

  /** The long help opens with the module's documentation page between blank lines and closes with the short help. */
  lemma LongOfSpec(apiCategory: string, c: RawCommand)
    ensures var r, page := LongOf(apiCategory, c), "\n" + DocsBase + apiCategory + "/" + c.moduleName + ".html\n\n";
      && HasPrefix(r, page)
      && HasSuffix(r, ShortOf(c))
      && |r| == |page| + |ShortOf(c)|
  {
  }

  /** The subcommand built for one entry; it demands at least one argument per parameter. */
  function SubCommandOf(apiCategory: string, c: RawCommand): (r: SubCommand)
    ensures r.use == UseOf(c) && r.groupId == GroupOf(c).id
    ensures r.minArgs == |c.parameters|
    ensures r.httpMethod == c.httpMethod
  {
    SubCommand(UseOf(c), GroupOf(c).id, ShortOf(c), LongOf(apiCategory, c), |c.parameters|, c.httpMethod)
  }

  /** With `/`-free names the `Use` path splits back into module, controller and command. */
  lemma UseSegments(c: RawCommand)
    requires '/' !in c.moduleName && '/' !in c.controller && '/' !in c.command
    ensures Split(UseOf(c), '/') == [c.moduleName, c.controller, c.command]
  {
    var parts := [c.moduleName, c.controller, c.command];
    assert Join(parts[2..], '/') == c.command;
    assert Join(parts[1..], '/') == c.controller + "/" + c.command;
    assert Join(parts, '/') == UseOf(c);
    SplitJoin(parts, '/');
  }

  /** cobra's `Name()`: the `Use` text up to its first space. */
  function CommandName(sub: SubCommand): (r: string)
    ensures HasPrefix(sub.use, r)
    ensures ' ' !in sub.use ==> r == sub.use
    ensures ' ' !in r
    ensures |r| < |sub.use| ==> sub.use[|r|] == ' '
  {
    ContainsChar(sub.use, ' ');
    BeforeFirstChar(sub.use, ' ');
    BeforeFirst(sub.use, " ")
  }

  // ---------------------------------------------------------------------------
  // The `raw` command and its subcommands
  // ---------------------------------------------------------------------------

  /** The group IDs, in order. */
  function Ids(groups: seq<Group>): (r: seq<string>)
    ensures |r| == |groups| && forall i :: 0 <= i < |groups| ==> r[i] == groups[i].id
  {
    seq(|groups|, i requires 0 <= i < |groups| => groups[i].id)
  }

  /** The groups after the entries `raws` are added: a group is appended only when its ID is new. */
  function GroupsAfter(groups: seq<Group>, raws: seq<RawCommand>): seq<Group>
  {
    if |raws| == 0 then groups
    else
      var prev := GroupsAfter(groups, raws[..|raws| - 1]);
      var g := GroupOf(raws[|raws| - 1]);
      if g.id in Ids(prev) then prev else prev + [g]
  }

  /**
    Adding entries keeps the existing groups in front, leaves a group for every entry,
    and every group added belongs to some entry.
   */
  lemma {:induction false} GroupsAfterSpec(groups: seq<Group>, raws: seq<RawCommand>)
    ensures var r := GroupsAfter(groups, raws);
      && |groups| <= |r| && r[..|groups|] == groups
      && (forall i :: 0 <= i < |raws| ==> GroupOf(raws[i]).id in Ids(r))
      && (forall k :: |groups| <= k < |r| ==> exists i :: 0 <= i < |raws| && r[k] == GroupOf(raws[i]))
  {
    if |raws| > 0 {
      var init := raws[..|raws| - 1];
      var prev := GroupsAfter(groups, init);
      GroupsAfterSpec(groups, init);
      var g := GroupOf(raws[|raws| - 1]);
      var r := GroupsAfter(groups, raws);
      if g.id !in Ids(prev) {
        assert Ids(prev + [g]) == Ids(prev) + [g.id];
      }
      forall i | 0 <= i < |raws| ensures GroupOf(raws[i]).id in Ids(r) {
        if i < |init| {
          assert raws[i] == init[i];
        }
      }
      forall k | |groups| <= k < |r| ensures exists i :: 0 <= i < |raws| && r[k] == GroupOf(raws[i]) {
        if k < |prev| {
          var i :| 0 <= i < |init| && prev[k] == GroupOf(init[i]);
          assert raws[i] == init[i];
        }
      }
    }
  }

  /** However many entries share a module and controller, their group is added at most once. */
  lemma {:induction false} GroupsAfterUnique(groups: seq<Group>, raws: seq<RawCommand>)
    requires NoDuplicates(Ids(groups))
    ensures NoDuplicates(Ids(GroupsAfter(groups, raws)))
  {
    if |raws| > 0 {
      var prev := GroupsAfter(groups, raws[..|raws| - 1]);
      GroupsAfterUnique(groups, raws[..|raws| - 1]);
      var g := GroupOf(raws[|raws| - 1]);
      if g.id !in Ids(prev) {
        var r := prev + [g];
        assert Ids(r) == Ids(prev) + [g.id];
      }
    }
  }

  /** The subcommands built for `raws`, one per entry, in order. */
  function SubCommandsOf(apiCategory: string, raws: seq<RawCommand>): (r: seq<SubCommand>)
    ensures |r| == |raws| && forall i :: 0 <= i < |raws| ==> r[i] == SubCommandOf(apiCategory, raws[i])
  {
    if |raws| == 0 then []
    else
      var init := raws[..|raws| - 1];
      assert forall i :: 0 <= i < |init| ==> init[i] == raws[i];
      SubCommandsOf(apiCategory, init) + [SubCommandOf(apiCategory, raws[|raws| - 1])]
  }

  /** One more entry: its group is added when its ID is new, and its subcommand is appended. */
  lemma InitStep(apiCategory: string, groups: seq<Group>, raws: seq<RawCommand>, i: nat)
    requires i < |raws|
    ensures var prev := GroupsAfter(groups, raws[..i]);
      GroupsAfter(groups, raws[..i + 1]) == if GroupOf(raws[i]).id in Ids(prev) then prev else prev + [GroupOf(raws[i])]
    ensures SubCommandsOf(apiCategory, raws[..i + 1]) == SubCommandsOf(apiCategory, raws[..i]) + [SubCommandOf(apiCategory, raws[i])]
  {
    assert raws[..i + 1][..i] == raws[..i];
  }

  /** The `raw` command: its groups and its subcommands, both in the order they were added. */
  class RawRoot {
    var groups: seq<Group>
    var subcommands: seq<SubCommand>

    constructor ()
      ensures groups == [] && subcommands == []
    {
      groups := [];
      subcommands := [];
    }

    /** cobra's `ContainsGroup`: some group has this ID. */
    predicate ContainsGroup(id: string)
      reads this
    {
      id in Ids(groups)
    }

    method AddGroup(g: Group)
      modifies this
      ensures groups == old(groups) + [g] && subcommands == old(subcommands)
    {
      groups := groups + [g];
    }

    method AddCommand(sub: SubCommand)
      modifies this
      ensures subcommands == old(subcommands) + [sub] && groups == old(groups)
    {
      subcommands := subcommands + [sub];
    }

    /**
      One pass of the initialisation loop: the entry's group is added unless one with the
      same ID exists, and the entry's subcommand is added.
     */
    method AddSubcommand(apiCategory: string, subcommand: RawCommand)
      modifies this
      ensures groups == if GroupOf(subcommand).id in Ids(old(groups)) then old(groups) else old(groups) + [GroupOf(subcommand)]
      ensures subcommands == old(subcommands) + [SubCommandOf(apiCategory, subcommand)]
    {
      var group := Group(subcommand.moduleName + "/" + subcommand.controller,
        "Module: " + subcommand.moduleName + ", Controller: " + subcommand.controller);
      if !ContainsGroup(group.id) {
        AddGroup(group);
      }
      var short := "Method: " + subcommand.httpMethod;
      if |subcommand.parameters| > 0 {
        short := short + ", Arguments: " + FormatList(subcommand.parameters);
      }
      var subCmd := SubCommand(
        subcommand.moduleName + "/" + subcommand.controller + "/" + subcommand.command,
        group.id,
        short,
        "\n" + DocsBase + apiCategory + "/" + subcommand.moduleName + ".html\n\n" + short,
        |subcommand.parameters|,
        subcommand.httpMethod);
      AddCommand(subCmd);
    }

    /** The initialisation of the command: the API category from the commands file name, then every entry. */
    method AddSubcommands(commandsFile: string, raws: seq<RawCommand>)
      modifies this
      ensures groups == GroupsAfter(old(groups), raws)
      ensures subcommands == old(subcommands) + SubCommandsOf(ApiCategory(commandsFile), raws)
    {
      var apiCategory := Base(commandsFile);
      apiCategory := apiCategory[..|apiCategory| - |Ext(apiCategory)|];
      AddEntries(apiCategory, raws);
    }

    /** The loop of the initialisation, over every entry of the commands file in order. */
    method AddEntries(apiCategory: string, raws: seq<RawCommand>)
      modifies this
      ensures groups == GroupsAfter(old(groups), raws)
      ensures subcommands == old(subcommands) + SubCommandsOf(apiCategory, raws)
    {
      for i := 0 to |raws|
        invariant groups == GroupsAfter(old(groups), raws[..i])
        invariant subcommands == old(subcommands) + SubCommandsOf(apiCategory, raws[..i])
      {
        InitStep(apiCategory, old(groups), raws, i);
        AddSubcommand(apiCategory, raws[i]);
      }
      assert raws[..|raws|] == raws;
    }
  }

  // ---------------------------------------------------------------------------
  // Running a subcommand
  // ---------------------------------------------------------------------------

  /** The URL called: the API root of the configured base URL, the subcommand's `Use`, then the arguments as path segments. */
  function CallingURL(baseURL: string, use: string, args: seq<string>): (r: string)
    ensures HasPrefix(r, baseURL + "/api/" + use)
    ensures |args| == 0 <==> r == baseURL + "/api/" + use
    ensures |args| > 0 ==> r[|baseURL + "/api/" + use|] == '/'
  {
    var callingURL := baseURL + "/api/" + use;
    if |args| > 0 then callingURL + "/" + Join(args, '/') else callingURL
  }

  /** With `/`-free arguments, the path after the `Use` splits back into the arguments. */
  lemma CallingURLArgs(baseURL: string, use: string, args: seq<string>)
    requires |args| > 0 && forall i :: 0 <= i < |args| ==> '/' !in args[i]
    ensures var prefix := baseURL + "/api/" + use;
      Split(CallingURL(baseURL, use, args)[|prefix| + 1..], '/') == args
  {
    var prefix := baseURL + "/api/" + use;
    assert CallingURL(baseURL, use, args)[|prefix| + 1..] == Join(args, '/');
    SplitJoin(args, '/');
  }

  /** What reading the secret file gives: its text, or the error `log.Fatal` prints. */
  datatype FileRead = Contents(text: string) | ReadError(message: string)

  datatype Credentials = Credentials(key: string, secret: string)

  function SecretFileMessage(secretFile: string): string
  {
    "Key/Secret file " + secretFile + " must contain key= and secret= fields"
  }

  /** The value after `prefix` on the last line that starts with it, or `current` when no line does. */
  function LastValue(lines: seq<string>, prefix: string, current: string): string
  {
    if |lines| == 0 then current
    else
      var l := lines[|lines| - 1];
      if HasPrefix(l, prefix) then l[|prefix|..] else LastValue(lines[..|lines| - 1], prefix, current)
  }

  /** Later lines override earlier ones, and a value with no line of its own keeps its configured value. */
  lemma {:induction false} LastValueSpec(lines: seq<string>, prefix: string, current: string)
    ensures var r := LastValue(lines, prefix, current);
      && ((forall i :: 0 <= i < |lines| ==> !HasPrefix(lines[i], prefix)) ==> r == current)
      && ((exists i :: 0 <= i < |lines| && HasPrefix(lines[i], prefix)) ==>
            exists i :: 0 <= i < |lines| && HasPrefix(lines[i], prefix) && r == lines[i][|prefix|..]
              && forall j :: i < j < |lines| ==> !HasPrefix(lines[j], prefix))
  {
    if |lines| > 0 && !HasPrefix(lines[|lines| - 1], prefix) {
      var init := lines[..|lines| - 1];
      LastValueSpec(init, prefix, current);
      assert forall i :: 0 <= i < |init| ==> init[i] == lines[i];
    }
  }

  /**
    The key and secret a subcommand uses: the configured values, unless one of them is
    empty and a secret file is configured; then the file must split into at least two
    lines, and its last `key=` and `secret=` lines override the configured values.
   */
  function ResolvedCredentials(key: string, secret: string, secretFile: string, file: FileRead): (r: Result<Credentials>)
    ensures !((|key| == 0 || |secret| == 0) && |secretFile| > 0) ==> r == Ok(Credentials(key, secret))
    ensures r.Failed? ==> r.abort.Fatal?
    ensures (|key| == 0 || |secret| == 0) && |secretFile| > 0 && file.ReadError? ==> r == Failed(Fatal(file.message))
    ensures (|key| == 0 || |secret| == 0) && |secretFile| > 0 && file.Contents? && |Split(file.text, '\n')| >= 2 ==>
      var lines := Split(file.text, '\n');
      r == Ok(Credentials(LastValue(lines, "key=", key), LastValue(lines, "secret=", secret)))
  {
    if (|key| == 0 || |secret| == 0) && |secretFile| > 0 then
      match file
      case ReadError(message) => Failed(Fatal(message))
      case Contents(text) =>
        var lines := Split(text, '\n');
        if |lines| < 2 then Failed(Fatal(SecretFileMessage(secretFile)))
        else Ok(Credentials(LastValue(lines, "key=", key), LastValue(lines, "secret=", secret)))
    else Ok(Credentials(key, secret))
  }

  /** A readable secret file is rejected exactly when it has no line break. */
  lemma SecretFileNeedsNewline(key: string, secret: string, secretFile: string, text: string)
    requires (|key| == 0 || |secret| == 0) && |secretFile| > 0
    ensures ResolvedCredentials(key, secret, secretFile, Contents(text)).Failed? <==> '\n' !in text
    ensures '\n' !in text ==>
      ResolvedCredentials(key, secret, secretFile, Contents(text)) == Failed(Fatal(SecretFileMessage(secretFile)))
  {
    SplitSinglePiece(text, '\n');
  }

  /** The credential lookup of a subcommand's run, line by line as the closure does it. */
  method ResolveCredentials(key: string, secret: string, secretFile: string, file: FileRead) returns (r: Result<Credentials>)
    ensures r == ResolvedCredentials(key, secret, secretFile, file)
  {
    var opnsenseKey, opnsenseSecret := key, secret;
    if (|opnsenseKey| == 0 || |opnsenseSecret| == 0) && |secretFile| > 0 {
      if file.ReadError? {
        return Failed(Fatal(file.message));
      }
      var lines := Split(file.text, '\n');
      if |lines| < 2 {
        return Failed(Fatal(SecretFileMessage(secretFile)));
      }
      for i := 0 to |lines|
        invariant opnsenseKey == LastValue(lines[..i], "key=", key)
        invariant opnsenseSecret == LastValue(lines[..i], "secret=", secret)
      {
        var l := lines[i];
        assert lines[..i + 1][..i] == lines[..i];
        if HasPrefix(l, "key=") {
          opnsenseKey := l[4..];
        }
        if HasPrefix(l, "secret=") {
          opnsenseSecret := l[7..];
        }
      }
      assert lines[..|lines|] == lines;
    }
    return Ok(Credentials(opnsenseKey, opnsenseSecret));
  }

  /** The request a run would send: URL, method, credentials and the TLS verification switch. */
  datatype ApiCall = ApiCall(url: string, httpMethod: string, key: string, secret: string, insecure: bool)

  /**
    A subcommand's run: the URL from its `Use` and the arguments, its method annotation,
    and the resolved credentials; a failed credential lookup stops the CLI.
   */
  method RunSubcommand(sub: SubCommand, args: seq<string>, baseURL: string, key: string, secret: string,
                       secretFile: string, file: FileRead, insecure: bool) returns (r: Result<ApiCall>)
    ensures var creds := ResolvedCredentials(key, secret, secretFile, file);
      && (r.Failed? <==> creds.Failed?)
      && (r.Failed? ==> r.abort == creds.abort)
      && (r.Ok? ==> r.value == ApiCall(CallingURL(baseURL, sub.use, args), sub.httpMethod,
                                       creds.value.key, creds.value.secret, insecure))
  {
    var callingURL := baseURL + "/api/" + sub.use;
    if |args| > 0 {
      callingURL := callingURL + "/" + Join(args, '/');
    }
    var creds := ResolveCredentials(key, secret, secretFile, file);
    if creds.Failed? {
      return Failed(creds.abort);
    }
    return Ok(ApiCall(callingURL, sub.httpMethod, creds.value.key, creds.value.secret, insecure));
  }
}
