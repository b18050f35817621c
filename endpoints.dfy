/**
  Endpoint extraction for one controller file of the generator
  (generator/opnsense/collect_api_endpoints.go, `parseAPIPHP` and its helpers).

  The generator's regular expressions are not modelled: their matches, in file order,
  are the input (`Matches`). Everything done with those matches is modelled: the class
  facts, the model file lookup, the per-method body slices, the verb and type
  classification, the parameter split, the inherited default commands and the sort.
 */
module Endpoints {
  import opened Runtime
  import opened Text
  import opened PathUtil

  const PostMethod := "POST"

  /** One implicit command that a well-known base class contributes. */
  datatype DefaultCommand = DefaultCommand(command: string, parameters: string, httpMethod: string)

  /** The commands each well-known base class contributes, in table order. */
  const DefaultBaseMethods: map<string, seq<DefaultCommand>> := map[
    "ApiMutableModelControllerBase" := [
      DefaultCommand("set", "", "POST"),
      DefaultCommand("get", "", "GET")
    ],
    "ApiMutableServiceControllerBase" := [
      DefaultCommand("status", "", "GET"),
      DefaultCommand("start", "", "POST"),
      DefaultCommand("stop", "", "POST"),
      DefaultCommand("restart", "", "POST"),
      DefaultCommand("reconfigure", "", "POST")
    ]
  ]

  /** One exposed API command. */
  datatype Endpoint = Endpoint(
    httpMethod: string,
    moduleName: string,
    controller: string,
    isAbstract: bool,
    baseClass: string,
    command: string,
    parameters: seq<string>,
    filename: string,
    modelFilename: string,
    typeLabel: string)

  /** A match of the method-header expression: the whole matched text, the method name, the raw parameter text. */
  datatype Header = Header(text: string, name: string, params: string)

  /** A match of the class-header expression: the word that leads the line, and the parent class name. */
  datatype ClassHeader = ClassHeader(leading: string, parent: string)

  /**
    All matches, in file order, of the expressions run over one file: the class header,
    the `$internalModelClass` and `$internalServiceClass` declarations, and the method headers.
   */
  datatype Matches = Matches(
    classHeaders: seq<ClassHeader>,
    modelClasses: seq<string>,
    serviceClasses: seq<string>,
    headers: seq<Header>)

  /** What every endpoint of one file shares. */
  datatype FileFacts = FileFacts(
    moduleName: string,
    controller: string,
    isAbstract: bool,
    baseClass: string,
    filename: string,
    modelFilename: string)

  // ---------------------------------------------------------------------------
  // Controller facts
  // ---------------------------------------------------------------------------

  /** The text handed to `strings.ReplaceAll` as if it were a pattern; it is replaced literally. */
  const CamelCaseBoundary := "(?<!^)(?=[A-Z])"
  const ControllerSuffix := "Controller.php"

  /** The controller identifier derived from the file's base name. */
  function ControllerName(baseFilename: string): string
  {
    ToLower(ReplaceAll(BeforeFirst(baseFilename, ControllerSuffix), CamelCaseBoundary, "_"))
  }

  /** Since the boundary text is replaced literally, a name that does not contain it is only cut and lowered. */
  lemma ControllerNameIsLoweredStem(baseFilename: string)
    requires !Contains(baseFilename, CamelCaseBoundary)
    ensures ControllerName(baseFilename) == ToLower(BeforeFirst(baseFilename, ControllerSuffix))
  {
    var stem := BeforeFirst(baseFilename, ControllerSuffix);
    forall j | OccursAt(stem, CamelCaseBoundary, j) ensures false {
      assert baseFilename[j..j + |CamelCaseBoundary|] == stem[j..j + |CamelCaseBoundary|];
      assert OccursAt(baseFilename, CamelCaseBoundary, j);
    }
    ReplaceAllAbsent(stem, CamelCaseBoundary, "_");
  }

  /** The base class: the last `\`-separated segment of the first class header's parent name, or "". */
  function BaseClassOf(classHeaders: seq<ClassHeader>): (r: string)
    ensures classHeaders == [] ==> r == ""
    ensures classHeaders != [] ==>
      var parent := classHeaders[0].parent;
      '\\' !in r && HasSuffix(parent, r) && (|r| < |parent| ==> parent[|parent| - |r| - 1] == '\\')
  {
    if |classHeaders| > 0 then LastSegment(classHeaders[0].parent, '\\') else ""
  }

  /** The class is abstract when the first class header's leading word is `abstract`. */
  function IsAbstractClass(classHeaders: seq<ClassHeader>): (r: bool)
    ensures r ==> classHeaders != []
    ensures classHeaders != [] ==> (r <==> classHeaders[0].leading == "abstract")
  {
    |classHeaders| > 0 && classHeaders[0].leading == "abstract"
  }

  /** The model class named by the first `$internalModelClass`, or else the first `$internalServiceClass`. */
  function ModelClass(m: Matches): (r: Option<string>)
    ensures m.modelClasses != [] ==> r == Some(m.modelClasses[0])
    ensures m.modelClasses == [] && m.serviceClasses != [] ==> r == Some(m.serviceClasses[0])
    ensures r.None? <==> m.modelClasses == [] && m.serviceClasses == []
  {
    if |m.modelClasses| > 0 then Some(m.modelClasses[0])
    else if |m.serviceClasses| > 0 then Some(m.serviceClasses[0])
    else None
  }

  /** The model descriptor path checked on disk: the application root five segments up, then `models/`, then the class as a path. */
  function ModelXML(splitPath: seq<string>, modelClass: string): string
    requires |splitPath| >= 5
  {
    Join(splitPath[..|splitPath| - 5], '/') + "/models/" + ReplaceAll(modelClass, "\\", "/") + ".xml"
  }

  /**
    The model file name: "" without a model class or when the descriptor does not exist;
    otherwise the descriptor path with `//` collapsed. A model class in a path of fewer
    than five segments makes Go slice out of range.
   */
  function ModelFilename(splitPath: seq<string>, m: Matches, existing: set<string>): Result<string>
  {
    match ModelClass(m)
    case None => Ok("")
    case Some(cls) =>
      if |splitPath| < 5 then Failed(SliceOutOfRange)
      else
        var xml := ModelXML(splitPath, cls);
        if xml in existing then Ok(ReplaceAll(xml, "//", "/")) else Ok("")
  }

  /** The model file is found exactly when a model class is declared and its descriptor exists; the path needs five segments. */
  lemma ModelFilenameSpec(splitPath: seq<string>, m: Matches, existing: set<string>)
    ensures var r := ModelFilename(splitPath, m, existing);
      && (r.Failed? <==> ModelClass(m).Some? && |splitPath| < 5)
      && ((r.Ok? && r.value != "") <==>
          (ModelClass(m).Some? && |splitPath| >= 5 && ModelXML(splitPath, ModelClass(m).value) in existing))
      && (r.Ok? && r.value != "" ==> r.value == ReplaceAll(ModelXML(splitPath, ModelClass(m).value), "//", "/"))
  {
  }

  /** The facts shared by all endpoints of the file at `path`; a path of fewer than three segments has no module segment. */
  function Facts(path: string, m: Matches, existing: set<string>): Result<FileFacts>
  {
    var splitPath := Split(path, '/');
    if |splitPath| < 3 then Failed(IndexOutOfRange)
    else
      var mf := ModelFilename(splitPath, m, existing);
      if mf.Failed? then Failed(mf.abort)
      else
        Ok(FileFacts(
          ToLower(splitPath[|splitPath| - 3]),
          ControllerName(Base(path)),
          IsAbstractClass(m.classHeaders),
          BaseClassOf(m.classHeaders),
          Base(path),
          mf.value))
  }

  /**
    Go stops with an index panic when the path has no third-last segment and with a slice panic
    when a declared model class has no application root five segments up; otherwise the module
    is the lowered third-last segment and the file name the base name.
   */
  lemma FactsSpec(path: string, m: Matches, existing: set<string>)
    ensures var r, splitPath := Facts(path, m, existing), Split(path, '/');
      && (r.Failed? <==> |splitPath| < 3 || (ModelClass(m).Some? && |splitPath| < 5))
      && (r.Failed? ==> r.abort == if |splitPath| < 3 then IndexOutOfRange else SliceOutOfRange)
    ensures var r, splitPath := Facts(path, m, existing), Split(path, '/');
      r.Ok? ==>
        && r.value.moduleName == ToLower(splitPath[|splitPath| - 3])
        && '/' !in r.value.moduleName
        && r.value.filename == Base(path)
        && r.value.controller == ControllerName(Base(path))
        && r.value.isAbstract == IsAbstractClass(m.classHeaders)
        && r.value.baseClass == BaseClassOf(m.classHeaders)
        && r.value.modelFilename == ModelFilename(splitPath, m, existing).value
  {
    var splitPath := Split(path, '/');
    if |splitPath| >= 3 {
      var segment := splitPath[|splitPath| - 3];
      assert '/' !in segment;
      assert '/' !in ToLower(segment);
    }
  }

  // ---------------------------------------------------------------------------
  // Classification of one action
  // ---------------------------------------------------------------------------

  /** A verb rule: a body containing `marker` is served with `method`. */
  datatype Rule = Rule(marker: string, httpMethod: string)

  /** The verb rules in priority order; the first whose marker occurs in the body decides. */
  const VerbRules: seq<Rule> := [
    Rule("request->isPost(", PostMethod),
    Rule("$this->delBase", PostMethod),
    Rule("$this->addBase", PostMethod),
    Rule("$this->setBase", PostMethod),
    Rule("$this->toggleBase", PostMethod),
    Rule("$this->searchBase", "*")
  ]

  const DefaultVerb := "GET"

  /** The method of the first rule whose marker occurs in `body`, or `fallback`. */
  function FirstMatch(rules: seq<Rule>, body: string, fallback: string): string
  {
    if |rules| == 0 then fallback
    else if Contains(body, rules[0].marker) then rules[0].httpMethod
    else FirstMatch(rules[1..], body, fallback)
  }

  /** The first matching rule wins, and without any match the fallback applies. */
  lemma {:induction false} FirstMatchWins(rules: seq<Rule>, body: string, fallback: string)
    ensures (forall i :: 0 <= i < |rules| ==> !Contains(body, rules[i].marker)) ==>
      FirstMatch(rules, body, fallback) == fallback
    ensures forall k ::
      (0 <= k < |rules| && Contains(body, rules[k].marker) &&
       (forall i :: 0 <= i < k ==> !Contains(body, rules[i].marker)))
      ==> FirstMatch(rules, body, fallback) == rules[k].httpMethod
  {
    if |rules| > 0 {
      FirstMatchWins(rules[1..], body, fallback);
      forall k | 0 < k < |rules| && Contains(body, rules[k].marker) &&
        (forall i :: 0 <= i < k ==> !Contains(body, rules[i].marker))
        ensures FirstMatch(rules, body, fallback) == rules[k].httpMethod
      {
        assert rules[1..][k - 1] == rules[k];
        assert forall i :: 0 <= i < k - 1 ==> rules[1..][i] == rules[i + 1];
      }
      if forall i :: 0 <= i < |rules| ==> !Contains(body, rules[i].marker) {
        assert forall i :: 0 <= i < |rules| - 1 ==> rules[1..][i] == rules[i + 1];
      }
    }
  }

  /** The HTTP verb of an action, decided from its body. */
  function Verb(body: string): string
  {
    FirstMatch(VerbRules, body, DefaultVerb)
  }

  predicate HasPostMarker(body: string)
  {
    || Contains(body, "request->isPost(")
    || Contains(body, "$this->delBase")
    || Contains(body, "$this->addBase")
    || Contains(body, "$this->setBase")
    || Contains(body, "$this->toggleBase")
  }

  /** POST when any mutation marker occurs; otherwise `*` when the search marker occurs; otherwise GET. */
  lemma VerbClassification(body: string)
    ensures Verb(body) == "POST" <==> HasPostMarker(body)
    ensures Verb(body) == "*" <==> !HasPostMarker(body) && Contains(body, "$this->searchBase")
    ensures Verb(body) == "GET" <==> !HasPostMarker(body) && !Contains(body, "$this->searchBase")
  {
    var r := VerbRules;
    assert r[1..][1..][1..][1..][1..][1..] == [];
    assert FirstMatch(r[1..][1..][1..][1..][1..], body, DefaultVerb) ==
      if Contains(body, "$this->searchBase") then "*" else DefaultVerb;
    assert FirstMatch(r[1..][1..][1..][1..], body, DefaultVerb) ==
      if Contains(body, "$this->toggleBase") then "POST"
      else FirstMatch(r[1..][1..][1..][1..][1..], body, DefaultVerb);
    assert FirstMatch(r[1..][1..][1..], body, DefaultVerb) ==
      if Contains(body, "$this->setBase") then "POST"
      else FirstMatch(r[1..][1..][1..][1..], body, DefaultVerb);
    assert FirstMatch(r[1..][1..], body, DefaultVerb) ==
      if Contains(body, "$this->addBase") then "POST"
      else FirstMatch(r[1..][1..][1..], body, DefaultVerb);
    assert FirstMatch(r[1..], body, DefaultVerb) ==
      if Contains(body, "$this->delBase") then "POST"
      else FirstMatch(r[1..][1..], body, DefaultVerb);
  }

  /** The type label: abstract classes first, then service controllers, then resources. */
  function TypeLabel(isAbstract: bool, controller: string): (r: string)
    ensures r == "Abstract [non-callable]" <==> isAbstract
    ensures r == "Service" <==> !isAbstract && Contains(controller, "service")
    ensures r == "Resources" <==> !isAbstract && !Contains(controller, "service")
  {
    if isAbstract then "Abstract [non-callable]"
    else if Contains(controller, "service") then "Service"
    else "Resources"
  }

  /** The parameter list: the parameter text without spaces, split on `,`; empty when the first piece is. */
  function Parameters(paramText: string): seq<string>
  {
    var pieces := Split(ReplaceAll(paramText, " ", ""), ',');
    if pieces[0] == "" then [] else pieces
  }

  lemma {:induction false} PiecesOfJoin(parts: seq<string>, sep: char, i: nat, x: char)
    requires i < |parts| && x in parts[i]
    ensures x in Join(parts, sep)
  {
    if i > 0 {
      PiecesOfJoin(parts[1..], sep, i - 1, x);
    }
  }

  /**
    The parameters are the space-free parameter text cut at every `,`, in order and
    keeping `$` and default values; the list is empty exactly when that text is empty
    or starts with `,`.
   */
  lemma ParametersSpec(paramText: string)
    ensures var t := ReplaceAll(paramText, " ", ""); var r := Parameters(paramText);
      && (r == [] <==> t == "" || t[0] == ',')
      && (r != [] ==> Join(r, ',') == t)
      && forall i :: 0 <= i < |r| ==> ' ' !in r[i] && ',' !in r[i]
  {
    var t := ReplaceAll(paramText, " ", "");
    FirstPieceEmpty(t, ',');
    JoinSplit(t, ',');
    var r := Parameters(paramText);
    forall i | 0 <= i < |r| ensures ' ' !in r[i] {
      if ' ' in r[i] {
        PiecesOfJoin(r, ',', i, ' ');
        RemoveCharMembers(paramText, ' ', ' ');
      }
    }
  }

  /** Spaces are dropped from the parameter text `$a, $b`. */
  lemma SpacesDroppedExample()
    ensures ReplaceAll("$a, $b", " ", "") == "$a,$b"
  {
    RemoveCharStep('b', "", ' ');
    RemoveCharStep('$', "b", ' ');
    RemoveCharStep(' ', "$b", ' ');
    RemoveCharStep(',', " $b", ' ');
    RemoveCharStep('a', ", $b", ' ');
    RemoveCharStep('$', "a, $b", ' ');
  }

  lemma ParametersExample()
    ensures Parameters("$a, $b") == ["$a", "$b"]
    ensures Parameters("") == []
  {
    SpacesDroppedExample();
    var parts := ["$a", "$b"];
    assert Join(parts, ',') == "$a,$b" by {
      assert Join(parts[1..], ',') == "$b";
    }
    SplitJoin(parts, ',');
  }

  predicate IsAction(name: string)
  {
    HasSuffix(name, "Action")
  }

  /** The command of an action method: its name without the `Action` suffix. */
  function CommandOf(name: string): (r: string)
    requires IsAction(name)
    ensures r + "Action" == name
  {
    name[..|name| - 6]
  }

  /** The endpoint for one action method with the given body. */
  function ExplicitEndpoint(f: FileFacts, h: Header, body: string): Endpoint
    requires IsAction(h.name)
  {
    Endpoint(
      Verb(body), f.moduleName, f.controller, f.isAbstract, f.baseClass, CommandOf(h.name),
      Parameters(h.params), f.filename, f.modelFilename, TypeLabel(f.isAbstract, f.controller))
  }

  /** The endpoint for one inherited default command: a service command without parameters. */
  function DefaultEndpoint(f: FileFacts, d: DefaultCommand): Endpoint
  {
    Endpoint(
      d.httpMethod, f.moduleName, f.controller, false, f.baseClass, d.command,
      [], f.filename, f.modelFilename, "Service")
  }

  // ---------------------------------------------------------------------------
  // Method bodies
  // ---------------------------------------------------------------------------

  /** Every header's matched text occurs in the file text, as the expression engine guarantees. */
  predicate Matched(data: string, headers: seq<Header>)
  {
    forall i :: 0 <= i < |headers| ==> Contains(data, headers[i].text)
  }

  /** Where header `i`'s body begins: after the first occurrence of its text. */
  function BodyStart(data: string, headers: seq<Header>, i: nat): (r: nat)
    requires Matched(data, headers) && i < |headers|
    ensures r <= |data|
  {
    IndexOf(data, headers[i].text) + |headers[i].text|
  }

  /** Where header `i`'s body ends: at the first occurrence of the next header's text, or at the end of the file. */
  function BodyEnd(data: string, headers: seq<Header>, i: nat): (r: nat)
    requires Matched(data, headers) && i < |headers|
    ensures r <= |data|
  {
    if i + 1 < |headers| then IndexOf(data, headers[i + 1].text) else |data|
  }

  predicate BodyInRange(data: string, headers: seq<Header>, i: nat)
    requires Matched(data, headers) && i < |headers|
  {
    BodyStart(data, headers, i) <= BodyEnd(data, headers, i)
  }

  /** The body slices of the first `n` headers are all in range. */
  predicate BodiesInRange(data: string, headers: seq<Header>, n: nat)
    requires Matched(data, headers) && n <= |headers|
  {
    n == 0 || (BodiesInRange(data, headers, n - 1) && BodyInRange(data, headers, n - 1))
  }

  lemma {:induction false} BodiesInRangeSpec(data: string, headers: seq<Header>, n: nat)
    requires Matched(data, headers) && n <= |headers|
    ensures BodiesInRange(data, headers, n) <==> forall i :: 0 <= i < n ==> BodyInRange(data, headers, i)
  {
    if n > 0 {
      BodiesInRangeSpec(data, headers, n - 1);
    }
  }

  /** No body slice is out of range; otherwise Go stops with a slice-bounds panic. */
  predicate AllBodiesInRange(data: string, headers: seq<Header>)
    requires Matched(data, headers)
  {
    BodiesInRange(data, headers, |headers|)
  }

  function Body(data: string, headers: seq<Header>, i: nat): string
    requires Matched(data, headers) && i < |headers| && BodyInRange(data, headers, i)
  {
    data[BodyStart(data, headers, i)..BodyEnd(data, headers, i)]
  }

  /** While the body slices stay in range, the headers' first occurrences advance strictly past each matched text. */
  lemma {:induction false} OccurrencesAdvance(data: string, headers: seq<Header>, i: nat, j: nat)
    requires Matched(data, headers) && i < j < |headers| && BodiesInRange(data, headers, j)
    ensures IndexOf(data, headers[i].text) + |headers[i].text| <= IndexOf(data, headers[j].text)
    decreases j
  {
    assert BodyInRange(data, headers, j - 1);
    if i < j - 1 {
      OccurrencesAdvance(data, headers, i, j - 1);
    }
  }

  /**
    A non-empty header text that appears again later: the later header's first occurrence
    is the earlier one's, so some body slice runs backwards and Go stops the generator.
   */
  lemma RepeatedHeaderPanics(data: string, headers: seq<Header>, i: nat, j: nat)
    requires Matched(data, headers) && i < j < |headers|
    requires |headers[i].text| > 0 && headers[j].text == headers[i].text
    ensures !AllBodiesInRange(data, headers)
  {
    if AllBodiesInRange(data, headers) {
      BodiesInRangeSpec(data, headers, |headers|);
      BodiesInRangeSpec(data, headers, j);
      OccurrencesAdvance(data, headers, i, j);
    }
  }

  /** The smallest instance: header `h`, another header, then `h` again. */
  lemma DuplicateHeaderPanics(data: string, h: Header, g: Header)
    requires |h.text| > 0 && Contains(data, h.text) && Contains(data, g.text)
    ensures !AllBodiesInRange(data, [h, g, h])
  {
    RepeatedHeaderPanics(data, [h, g, h], 0, 2);
  }

  // ---------------------------------------------------------------------------
  // The pre-sort endpoint list
  // ---------------------------------------------------------------------------

  /** The indices, among the first `n` headers, of the action methods, in file order. */
  function ActionIndices(headers: seq<Header>, n: nat): (r: seq<nat>)
    requires n <= |headers|
    ensures forall k :: 0 <= k < |r| ==> r[k] < n && IsAction(headers[r[k]].name)
    ensures forall k, l :: 0 <= k < l < |r| ==> r[k] < r[l]
    ensures forall i :: 0 <= i < n && IsAction(headers[i].name) ==> i in r
  {
    if n == 0 then []
    else
      var prev := ActionIndices(headers, n - 1);
      if IsAction(headers[n - 1].name) then prev + [n - 1] else prev
  }

  /** The endpoints of the action methods among the first `n` headers (the loop's `result`). */
  function Explicit(f: FileFacts, data: string, headers: seq<Header>, n: nat): seq<Endpoint>
    requires Matched(data, headers) && n <= |headers|
    requires BodiesInRange(data, headers, n)
  {
    if n == 0 then []
    else
      var prev := Explicit(f, data, headers, n - 1);
      var h := headers[n - 1];
      if IsAction(h.name) then prev + [ExplicitEndpoint(f, h, Body(data, headers, n - 1))] else prev
  }

  /** The commands of the action methods among the first `n` headers (the loop's `thisCommands`). */
  function DefinedCommands(headers: seq<Header>, n: nat): seq<string>
    requires n <= |headers|
  {
    if n == 0 then []
    else
      var prev := DefinedCommands(headers, n - 1);
      var h := headers[n - 1];
      if IsAction(h.name) then prev + [CommandOf(h.name)] else prev
  }

  /** Each action header yields exactly one endpoint, in header order; other headers yield none. */
  lemma {:induction false} ExplicitSpec(f: FileFacts, data: string, headers: seq<Header>, n: nat)
    requires Matched(data, headers) && n <= |headers|
    requires BodiesInRange(data, headers, n)
    ensures forall i :: 0 <= i < n ==> BodyInRange(data, headers, i)
    ensures var e := Explicit(f, data, headers, n); var ix := ActionIndices(headers, n);
      |e| == |ix| &&
      forall k :: 0 <= k < |e| ==> e[k] == ExplicitEndpoint(f, headers[ix[k]], Body(data, headers, ix[k]))
  {
    BodiesInRangeSpec(data, headers, n);
    if n > 0 {
      ExplicitSpec(f, data, headers, n - 1);
      var h := headers[n - 1];
      var prev := Explicit(f, data, headers, n - 1);
      var ix := ActionIndices(headers, n - 1);
      if IsAction(h.name) {
        assert Explicit(f, data, headers, n) == prev + [ExplicitEndpoint(f, h, Body(data, headers, n - 1))];
        assert ActionIndices(headers, n) == ix + [n - 1];
      }
    }
  }

  /** Each action header contributes its command, in header order. */
  lemma {:induction false} DefinedCommandsSpec(headers: seq<Header>, n: nat)
    requires n <= |headers|
    ensures var c := DefinedCommands(headers, n); var ix := ActionIndices(headers, n);
      |c| == |ix| && forall k :: 0 <= k < |c| ==> c[k] == CommandOf(headers[ix[k]].name)
  {
    if n > 0 {
      DefinedCommandsSpec(headers, n - 1);
      var h := headers[n - 1];
      if IsAction(h.name) {
        assert DefinedCommands(headers, n) == DefinedCommands(headers, n - 1) + [CommandOf(h.name)];
        assert ActionIndices(headers, n) == ActionIndices(headers, n - 1) + [n - 1];
      }
    }
  }

  /** The default endpoints for the table entries whose command is not among `defined`, in table order. */
  function MissingDefaults(f: FileFacts, entries: seq<DefaultCommand>, defined: seq<string>): seq<Endpoint>
  {
    if |entries| == 0 then []
    else
      var prev := MissingDefaults(f, entries[..|entries| - 1], defined);
      var d := entries[|entries| - 1];
      if d.command in defined then prev else prev + [DefaultEndpoint(f, d)]
  }

  /** The default endpoints the base class adds: none for a base class missing from the table. */
  function Defaults(f: FileFacts, defined: seq<string>): seq<Endpoint>
  {
    if f.baseClass in DefaultBaseMethods then MissingDefaults(f, DefaultBaseMethods[f.baseClass], defined) else []
  }

  /** A table entry yields a default endpoint exactly when its command is not already defined. */
  lemma {:induction false} MissingDefaultsSpec(f: FileFacts, entries: seq<DefaultCommand>, defined: seq<string>)
    ensures |MissingDefaults(f, entries, defined)| <= |entries|
    ensures forall e :: e in MissingDefaults(f, entries, defined) <==>
      exists d :: d in entries && d.command !in defined && e == DefaultEndpoint(f, d)
  {
    if |entries| > 0 {
      var init := entries[..|entries| - 1];
      MissingDefaultsSpec(f, init, defined);
      assert entries == init + [entries[|entries| - 1]];
    }
  }

  /** A default endpoint is added exactly for the table entries of a known base class whose command is not defined. */
  lemma DefaultsSpec(f: FileFacts, defined: seq<string>)
    ensures f.baseClass !in DefaultBaseMethods ==> Defaults(f, defined) == []
    ensures forall e :: e in Defaults(f, defined) <==>
      f.baseClass in DefaultBaseMethods &&
      exists d :: d in DefaultBaseMethods[f.baseClass] && d.command !in defined && e == DefaultEndpoint(f, d)
  {
    if f.baseClass in DefaultBaseMethods {
      MissingDefaultsSpec(f, DefaultBaseMethods[f.baseClass], defined);
    }
  }

  /** The defaults an abstract controller inherits are marked as non-abstract `Service` endpoints all the same. */
  lemma AbstractDefaultsAreService(f: FileFacts, defined: seq<string>)
    requires f.isAbstract
    ensures forall e :: e in Defaults(f, defined) ==> !e.isAbstract && e.typeLabel == "Service"
  {
    DefaultsSpec(f, defined);
  }

  /** An abstract model controller that defines nothing still receives `set` as a non-abstract `Service` endpoint. */
  lemma AbstractModelControllerExample(f: FileFacts)
    requires f.isAbstract && f.baseClass == "ApiMutableModelControllerBase"
    ensures Defaults(f, []) != []
    ensures !Defaults(f, [])[0].isAbstract && Defaults(f, [])[0].typeLabel == "Service"
  {
    var t := DefaultBaseMethods[f.baseClass];
    assert t[..1][..0] == [];
    assert MissingDefaults(f, t[..1], []) == [DefaultEndpoint(f, t[0])];
    assert t[..2][..1] == t[..1];
    assert t[..2] == t;
  }

  /** The endpoint list before sorting: the actions in file order, then the missing defaults in table order. */
  function Unsorted(f: FileFacts, data: string, headers: seq<Header>): seq<Endpoint>
    requires Matched(data, headers) && AllBodiesInRange(data, headers)
  {
    Explicit(f, data, headers, |headers|) + Defaults(f, DefinedCommands(headers, |headers|))
  }

  function CommandsOf(s: seq<Endpoint>): seq<string>
  {
    seq(|s|, i requires 0 <= i < |s| => s[i].command)
  }

  function EntryCommands(entries: seq<DefaultCommand>): seq<string>
  {
    seq(|entries|, i requires 0 <= i < |entries| => entries[i].command)
  }

  lemma {:induction false} MissingDefaultsDistinct(f: FileFacts, entries: seq<DefaultCommand>, defined: seq<string>)
    requires NoDuplicates(EntryCommands(entries))
    ensures NoDuplicates(CommandsOf(MissingDefaults(f, entries, defined)))
  {
    if |entries| > 0 {
      var init := entries[..|entries| - 1];
      var d := entries[|entries| - 1];
      assert EntryCommands(init) == EntryCommands(entries)[..|entries| - 1];
      MissingDefaultsDistinct(f, init, defined);
      MissingDefaultsSpec(f, init, defined);
      var prev := MissingDefaults(f, init, defined);
      forall k | 0 <= k < |prev| ensures prev[k].command != d.command {
        assert prev[k] in prev;
        var c :| c in init && c.command !in defined && prev[k] == DefaultEndpoint(f, c);
        var i :| 0 <= i < |init| && init[i] == c;
        assert EntryCommands(entries)[i] == c.command;
        assert EntryCommands(entries)[|entries| - 1] == d.command;
      }
      var r := MissingDefaults(f, entries, defined);
      if d.command !in defined {
        assert r == prev + [DefaultEndpoint(f, d)];
        var rc := CommandsOf(r);
        forall i, j | 0 <= i < j < |rc| ensures rc[i] != rc[j] {
          if j == |prev| {
            assert rc[i] == prev[i].command;
          } else {
            assert rc[i] == CommandsOf(prev)[i] && rc[j] == CommandsOf(prev)[j];
          }
        }
      }
    }
  }

  /** The explicit endpoints carry exactly the defined commands, in the same order. */
  lemma ExplicitCommands(f: FileFacts, data: string, headers: seq<Header>)
    requires Matched(data, headers) && AllBodiesInRange(data, headers)
    ensures CommandsOf(Explicit(f, data, headers, |headers|)) == DefinedCommands(headers, |headers|)
  {
    ExplicitSpec(f, data, headers, |headers|);
    DefinedCommandsSpec(headers, |headers|);
  }

  /** The default endpoints have distinct commands, none of them already defined. */
  lemma DefaultCommandsFresh(f: FileFacts, defined: seq<string>)
    ensures NoDuplicates(CommandsOf(Defaults(f, defined)))
    ensures forall c :: c in CommandsOf(Defaults(f, defined)) ==> c !in defined
  {
    var d := Defaults(f, defined);
    DefaultsSpec(f, defined);
    if f.baseClass in DefaultBaseMethods {
      var entries := DefaultBaseMethods[f.baseClass];
      assert NoDuplicates(EntryCommands(entries));
      MissingDefaultsDistinct(f, entries, defined);
    }
    forall c | c in CommandsOf(d) ensures c !in defined {
      var k :| 0 <= k < |d| && CommandsOf(d)[k] == c;
      assert d[k] in d;
    }
  }

  lemma CommandsOfConcat(a: seq<Endpoint>, b: seq<Endpoint>)
    ensures CommandsOf(a + b) == CommandsOf(a) + CommandsOf(b)
  {
  }

  lemma {:induction false} DisjointConcat(a: seq<string>, b: seq<string>)
    requires NoDuplicates(a) && NoDuplicates(b)
    requires forall c :: c in b ==> c !in a
    ensures NoDuplicates(a + b)
  {
    var ab := a + b;
    forall i, j | 0 <= i < j < |ab| ensures ab[i] != ab[j] {
      if i < |a| && j >= |a| {
        assert ab[j] == b[j - |a|] && b[j - |a|] in b;
        assert ab[i] in a;
      } else if i >= |a| {
        assert ab[i] == b[i - |a|] && ab[j] == b[j - |a|];
      }
    }
  }

  /** The commands of the merged list: the defined ones in file order, then those of the added defaults. */
  lemma UnsortedCommands(f: FileFacts, data: string, headers: seq<Header>)
    requires Matched(data, headers) && AllBodiesInRange(data, headers)
    ensures var defined := DefinedCommands(headers, |headers|);
      CommandsOf(Unsorted(f, data, headers)) == defined + CommandsOf(Defaults(f, defined))
  {
    ExplicitCommands(f, data, headers);
    CommandsOfConcat(Explicit(f, data, headers, |headers|), Defaults(f, DefinedCommands(headers, |headers|)));
  }

  /**
    When the file does not define an action twice, every command of the merged list is
    distinct: an explicit action always suppresses the default of the same name.
   */
  lemma UniqueCommands(f: FileFacts, data: string, headers: seq<Header>)
    requires Matched(data, headers) && AllBodiesInRange(data, headers)
    requires NoDuplicates(DefinedCommands(headers, |headers|))
    ensures NoDuplicates(CommandsOf(Unsorted(f, data, headers)))
  {
    var defined := DefinedCommands(headers, |headers|);
    UnsortedCommands(f, data, headers);
    DefaultCommandsFresh(f, defined);
    DisjointConcat(defined, CommandsOf(Defaults(f, defined)));
  }

  /** A controller on the mutable service base that defines only `status` receives the other four service commands. */
  lemma ServiceDefaultsExample(f: FileFacts)
    requires f.baseClass == "ApiMutableServiceControllerBase"
    ensures Defaults(f, ["status"]) == [
      DefaultEndpoint(f, DefaultCommand("start", "", "POST")),
      DefaultEndpoint(f, DefaultCommand("stop", "", "POST")),
      DefaultEndpoint(f, DefaultCommand("restart", "", "POST")),
      DefaultEndpoint(f, DefaultCommand("reconfigure", "", "POST"))]
  {
    var t := DefaultBaseMethods[f.baseClass];
    var defined := ["status"];
    assert t[..1][..0] == [];
    assert MissingDefaults(f, t[..1], defined) == [];
    assert t[..2][..1] == t[..1];
    assert MissingDefaults(f, t[..2], defined) == [DefaultEndpoint(f, t[1])];
    assert t[..3][..2] == t[..2];
    assert MissingDefaults(f, t[..3], defined) == [DefaultEndpoint(f, t[1]), DefaultEndpoint(f, t[2])];
    assert t[..4][..3] == t[..3];
    assert MissingDefaults(f, t[..4], defined) == [DefaultEndpoint(f, t[1]), DefaultEndpoint(f, t[2]), DefaultEndpoint(f, t[3])];
    assert t[..5][..4] == t[..4];
    assert t[..5] == t;
    assert MissingDefaults(f, t, defined) ==
      [DefaultEndpoint(f, t[1]), DefaultEndpoint(f, t[2]), DefaultEndpoint(f, t[3]), DefaultEndpoint(f, t[4])];
  }

  // ---------------------------------------------------------------------------
  // Search loops and the sort
  // ---------------------------------------------------------------------------

  /** findIndex: the first index holding `val`, or -1. */
  method FindIndex(slice: seq<string>, val: string) returns (idx: int)
    ensures idx == FirstIndex(slice, val)
  {
    var i := 0;
    while i < |slice|
      invariant 0 <= i <= |slice|
      invariant val !in slice[..i]
    {
      if slice[i] == val {
        assert FirstIndex(slice, val) >= 0;
        return i;
      }
      assert slice[..i + 1] == slice[..i] + [slice[i]];
      i := i + 1;
    }
    assert slice[..i] == slice;
    return -1;
  }

  /** contains: whether `val` is one of the elements. */
  method ContainsString(slice: seq<string>, val: string) returns (found: bool)
    ensures found <==> val in slice
  {
    for i := 0 to |slice|
      invariant val !in slice[..i]
    {
      if slice[i] == val {
        return true;
      }
      assert slice[..i + 1] == slice[..i] + [slice[i]];
    }
    assert slice[..|slice|] == slice;
    return false;
  }

  /** `x` may stand before `y` in the sorted list. */
  predicate CommandOrder(x: Endpoint, y: Endpoint)
  {
    !Less(y.command, x.command)
  }

  predicate SortedByCommand(s: seq<Endpoint>)
  {
    forall i, j :: 0 <= i < j < |s| ==> CommandOrder(s[i], s[j])
  }

  lemma CommandOrderTransitive(x: Endpoint, y: Endpoint, z: Endpoint)
    requires CommandOrder(x, y) && CommandOrder(y, z)
    ensures CommandOrder(x, z)
  {
    if x.command != y.command && y.command != z.command {
      LessTotal(x.command, y.command);
      LessTotal(y.command, z.command);
      LessTransitive(x.command, y.command, z.command);
      LessAsymmetric(x.command, z.command);
    }
  }

  /** `x` placed at `j` in the sorted `s`, after every command it does not precede and before the larger ones, keeps it sorted. */
  lemma {:induction false} InsertKeepsSorted(s: seq<Endpoint>, x: Endpoint, j: nat)
    requires j <= |s| && SortedByCommand(s)
    requires j > 0 ==> !Less(x.command, s[j - 1].command)
    requires forall q :: j <= q < |s| ==> Less(x.command, s[q].command)
    ensures SortedByCommand(s[..j] + [x] + s[j..])
  {
    var t := s[..j] + [x] + s[j..];
    forall p, q | 0 <= p < q < |t| ensures CommandOrder(t[p], t[q]) {
      if q == j {
        if p < j - 1 {
          assert CommandOrder(s[p], s[j - 1]);
          CommandOrderTransitive(s[p], s[j - 1], x);
        }
      } else if p == j {
        LessAsymmetric(x.command, s[q - 1].command);
      } else if p < j && q > j {
        assert CommandOrder(s[p], s[q - 1]);
      } else if p > j {
        assert CommandOrder(s[p - 1], s[q - 1]);
      } else {
        assert CommandOrder(s[p], s[q]);
      }
    }
  }

  /** `x` inserted at `j` into `s` without its element `i`: the same elements as `s` when `x` is `s[i]`. */
  lemma InsertSameElements(s: seq<Endpoint>, x: Endpoint, j: nat, i: nat)
    requires j <= i < |s| && s[i] == x
    ensures multiset(s[..j] + [x] + s[j..i] + s[i + 1..]) == multiset(s)
  {
    assert s == s[..j] + s[j..i] + [x] + s[i + 1..];
  }

  /**
    The array after the insertion loop, element by element, is `s` with `x == s[i]` moved to `j`:
    the same elements, the first `i + 1` sorted, the rest untouched.
   */
  lemma {:induction false} InsertedAt(t: seq<Endpoint>, s: seq<Endpoint>, x: Endpoint, j: nat, i: nat)
    requires j <= i < |s| == |t| && t[j] == x == s[i]
    requires forall k :: 0 <= k < j ==> t[k] == s[k]
    requires forall k :: j < k <= i ==> t[k] == s[k - 1]
    requires forall k :: i < k < |t| ==> t[k] == s[k]
    requires SortedByCommand(s[..i])
    requires j > 0 ==> !Less(x.command, s[j - 1].command)
    requires forall q :: j <= q < i ==> Less(x.command, s[q].command)
    ensures SortedByCommand(t[..i + 1])
    ensures multiset(t) == multiset(s)
    ensures t[i + 1..] == s[i + 1..]
  {
    assert t == s[..j] + [x] + s[j..i] + s[i + 1..];
    InsertSameElements(s, x, j, i);
    assert t[..i + 1] == s[..i][..j] + [x] + s[..i][j..];
    InsertKeepsSorted(s[..i], x, j);
  }

  /**
    The inner loop of one insertion step: every element of `a[..i]` with a larger command than
    `x` moves one place right, and `j` is the place left free for `x`.
   */
  method ShiftLarger(a: array<Endpoint>, i: nat, x: Endpoint) returns (j: nat)
    requires i < a.Length
    modifies a
    ensures j <= i
    ensures forall k :: 0 <= k < j ==> a[k] == old(a[k])
    ensures forall k :: j < k <= i ==> a[k] == old(a[k - 1])
    ensures forall k :: i < k < a.Length ==> a[k] == old(a[k])
    ensures j > 0 ==> !Less(x.command, a[j - 1].command)
    ensures forall q :: j <= q < i ==> Less(x.command, old(a[q]).command)
  {
    ghost var s := a[..];
    j := i;
    while j > 0 && Less(x.command, a[j - 1].command)
      invariant 0 <= j <= i
      invariant forall k :: 0 <= k < j ==> a[k] == s[k]
      invariant forall k :: j < k <= i ==> a[k] == s[k - 1]
      invariant forall k :: i < k < a.Length ==> a[k] == s[k]
      invariant forall q :: j <= q < i ==> Less(x.command, s[q].command)
    {
      a[j] := a[j - 1];
      j := j - 1;
    }
  }

  /** One insertion step: moves `a[i]` left past every larger command, so that `a[..i + 1]` is sorted. */
  method InsertLast(a: array<Endpoint>, i: nat)
    requires i < a.Length && SortedByCommand(a[..i])
    modifies a
    ensures SortedByCommand(a[..i + 1])
    ensures multiset(a[..]) == multiset(old(a[..]))
    ensures a[i + 1..] == old(a[i + 1..])
  {
    ghost var s := a[..];
    var x := a[i];
    var j := ShiftLarger(a, i, x);
    a[j] := x;
    InsertedAt(a[..], s, x, j, i);
  }

  /** sort.Slice by command, in place: the array ends sorted and holds the same endpoints. */
  method SortByCommand(a: array<Endpoint>)
    modifies a
    ensures SortedByCommand(a[..])
    ensures multiset(a[..]) == multiset(old(a[..]))
  {
    var i := 0;
    while i < a.Length
      invariant 0 <= i <= a.Length
      invariant SortedByCommand(a[..i])
      invariant multiset(a[..]) == multiset(old(a[..]))
    {
      InsertLast(a, i);
      i := i + 1;
    }
    assert a[..i] == a[..];
  }

  // ---------------------------------------------------------------------------
  // parseAPIPHP
  // ---------------------------------------------------------------------------

  /**
    One pass of the headers loop of parseAPIPHP: header `idx`'s body is cut out, and an
    action method adds its endpoint and its command; `ok` is false when the slice runs backwards.
   */
  method CollectAction(f: FileFacts, data: string, headers: seq<Header>, idx: nat, result: seq<Endpoint>, thisCommands: seq<string>)
      returns (ok: bool, result': seq<Endpoint>, thisCommands': seq<string>)
    requires Matched(data, headers) && idx < |headers|
    requires BodiesInRange(data, headers, idx)
    requires result == Explicit(f, data, headers, idx) && thisCommands == DefinedCommands(headers, idx)
    ensures ok <==> BodyInRange(data, headers, idx)
    ensures ok ==> result' == Explicit(f, data, headers, idx + 1) && thisCommands' == DefinedCommands(headers, idx + 1)
  {
    var header := headers[idx];
    var beginMarker := IndexOf(data, header.text);
    var endMarker := |data|;
    if idx + 1 < |headers| {
      endMarker := IndexOf(data, headers[idx + 1].text);
    }
    if beginMarker + |header.text| > endMarker {
      return false, result, thisCommands;
    }
    var codeBlock := data[beginMarker + |header.text|..endMarker];
    assert codeBlock == Body(data, headers, idx);
    result', thisCommands' := result, thisCommands;
    if IsAction(header.name) {
      thisCommands' := thisCommands + [CommandOf(header.name)];
      result' := result + [ExplicitEndpoint(f, header, codeBlock)];
    }
    return true, result', thisCommands';
  }

  /**
    The header loop of parseAPIPHP: one endpoint per action method, with its body cut
    between its header and the next; `ok` is false where Go's body slice runs backwards.
   */
  method CollectActions(f: FileFacts, data: string, headers: seq<Header>)
      returns (ok: bool, result: seq<Endpoint>, thisCommands: seq<string>)
    requires Matched(data, headers)
    ensures ok <==> AllBodiesInRange(data, headers)
    ensures ok ==> result == Explicit(f, data, headers, |headers|) && thisCommands == DefinedCommands(headers, |headers|)
  {
    result, thisCommands := [], [];
    var idx := 0;
    while idx < |headers|
      invariant 0 <= idx <= |headers|
      invariant BodiesInRange(data, headers, idx)
      invariant result == Explicit(f, data, headers, idx)
      invariant thisCommands == DefinedCommands(headers, idx)
    {
      var inRange;
      inRange, result, thisCommands := CollectAction(f, data, headers, idx, result, thisCommands);
      if !inRange {
        BodiesInRangeSpec(data, headers, |headers|);
        return false, result, thisCommands;
      }
      idx := idx + 1;
    }
    return true, result, thisCommands;
  }

  /** The defaults loop of parseAPIPHP: appends each base-class default whose command is not defined. */
  method AppendDefaults(f: FileFacts, result: seq<Endpoint>, thisCommands: seq<string>) returns (r: seq<Endpoint>)
    ensures r == result + Defaults(f, thisCommands)
  {
    r := result;
    if f.baseClass in DefaultBaseMethods {
      var items := DefaultBaseMethods[f.baseClass];
      var k := 0;
      while k < |items|
        invariant 0 <= k <= |items|
        invariant r == result + MissingDefaults(f, items[..k], thisCommands)
      {
        var present := ContainsString(thisCommands, items[k].command);
        assert items[..k + 1][..k] == items[..k];
        if !present {
          r := r + [DefaultEndpoint(f, items[k])];
        }
        k := k + 1;
      }
      assert items[..k] == items;
    }
  }

  /**
    The endpoints of one controller file: the sorted action endpoints plus the missing
    defaults of its base class. Go stops (index or slice out of range) on a too-short
    path or a body slice that runs backwards.
   */
  method ParseAPIPHP(path: string, data: string, m: Matches, existing: set<string>) returns (r: Result<seq<Endpoint>>)
    requires Matched(data, m.headers)
    ensures r.Ok? <==> Facts(path, m, existing).Ok? && AllBodiesInRange(data, m.headers)
    ensures r.Failed? ==> r.abort == if Facts(path, m, existing).Failed? then Facts(path, m, existing).abort else SliceOutOfRange
    ensures r.Ok? ==>
      && SortedByCommand(r.value)
      && multiset(r.value) == multiset(Unsorted(Facts(path, m, existing).value, data, m.headers))
  {
    var facts := Facts(path, m, existing);
    if facts.Failed? {
      return Failed(facts.abort);
    }
    var f := facts.value;
    var ok, result, thisCommands := CollectActions(f, data, m.headers);
    if !ok {
      return Failed(SliceOutOfRange);
    }
    result := AppendDefaults(f, result, thisCommands);
    var a := new Endpoint[|result|](i requires 0 <= i < |result| => result[i]);
    assert a[..] == result;
    SortByCommand(a);
    return Ok(a[..]);
  }

  // ---------------------------------------------------------------------------
  // sourceURL
  // ---------------------------------------------------------------------------

  const CoreBlobPrefix := "https://github.com/opnsense/core/blob/master/"
  const PluginsBlobPrefix := "https://github.com/opnsense/plugins/blob/master/"

  /** Where the link's path starts among the `/`-separated segments: at the first `src`, two earlier for the plugins repository. */
  function LinkStart(repo: string, parts: seq<string>): int
  {
    if repo == "plugins" then FirstIndex(parts, "src") - 2 else FirstIndex(parts, "src")
  }

  function BlobPrefix(repo: string): string
  {
    if repo == "plugins" then PluginsBlobPrefix else CoreBlobPrefix
  }

  /**
    The repository link for a file: the blob prefix of the repository, then the file's
    segments from `LinkStart` on. Without such a start Go slices out of range.
   */
  function SourceLink(repo: string, srcFilename: string): (r: Result<string>)
    ensures var parts := Split(srcFilename, '/');
      var start := LinkStart(repo, parts);
      && (r.Ok? <==> start >= 0)
      && (r.Failed? ==> r.abort == SliceOutOfRange)
      && (r.Ok? ==> HasPrefix(r.value, BlobPrefix(repo)) && Split(r.value[|BlobPrefix(repo)|..], '/') == parts[start..])
  {
    var parts := Split(srcFilename, '/');
    var start := LinkStart(repo, parts);
    if start < 0 then Failed(SliceOutOfRange)
    else
      var prefix := BlobPrefix(repo);
      var tail := parts[start..];
      SplitJoin(tail, '/');
      assert (prefix + Join(tail, '/'))[|prefix|..] == Join(tail, '/');
      Ok(prefix + Join(tail, '/'))
  }

  /** sourceURL, searching the segments with `findIndex`. */
  method SourceURL(repo: string, srcFilename: string) returns (r: Result<string>)
    ensures r == SourceLink(repo, srcFilename)
  {
    var parts := Split(srcFilename, '/');
    var src := FindIndex(parts, "src");
    var start := if repo == "plugins" then src - 2 else src;
    if start < 0 {
      return Failed(SliceOutOfRange);
    }
    var prefix := if repo == "plugins" then PluginsBlobPrefix else CoreBlobPrefix;
    r := Ok(prefix + Join(parts[start..], '/'));
  }

  /** For a path given by its segments, the link is the blob prefix followed by the segments from `LinkStart` on. */
  lemma SourceLinkOfSegments(repo: string, parts: seq<string>)
    requires |parts| >= 1 && forall i :: 0 <= i < |parts| ==> '/' !in parts[i]
    requires LinkStart(repo, parts) >= 0
    ensures SourceLink(repo, Join(parts, '/')) == Ok(BlobPrefix(repo) + Join(parts[LinkStart(repo, parts)..], '/'))
  {
    SplitJoin(parts, '/');
  }
}
