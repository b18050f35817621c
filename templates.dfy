/**
  The records the generator hands to its output template for one module
  (generator/opnsense/collect_api_endpoints.go, the loop over modules in `main`).
  The template itself and the module title are not modelled.
 */
module Templates {
  import opened Runtime
  import opened Text
  import opened PathUtil
  import opened Endpoints

  /** One entry of a controller's `Uses`: a kind, a repository link and a file name. */
  datatype Use = Use(kind: string, link: string, name: string)

  datatype Controller = Controller(
    typeLabel: string,
    filename: string,
    isAbstract: bool,
    baseClass: string,
    endpoints: seq<Endpoint>,
    uses: seq<Use>)

  /** The data for one module's section of the output (the title is not modelled). */
  datatype TemplateData = TemplateData(titleUnderline: string, controllers: seq<Controller>)

  /**
    The record of one controller file: type, file name, abstractness and base class copied
    from endpoint 0, all the endpoints, and one `model` use when endpoint 0 names a model file.
   */
  function ControllerOf(repo: string, endpoints: seq<Endpoint>): (r: Result<Controller>)
    requires |endpoints| > 0
    ensures r.Failed? <==> endpoints[0].modelFilename != "" && SourceLink(repo, endpoints[0].modelFilename).Failed?
    ensures var e := endpoints[0];
      r.Ok? ==>
        && r.value.typeLabel == e.typeLabel && r.value.filename == e.filename
        && r.value.isAbstract == e.isAbstract && r.value.baseClass == e.baseClass
        && r.value.endpoints == endpoints
        && (e.modelFilename == "" ==> r.value.uses == [])
        && (e.modelFilename != "" ==>
              r.value.uses == [Use("model", SourceLink(repo, e.modelFilename).value, Base(e.modelFilename))])
  {
    var e := endpoints[0];
    if e.modelFilename == "" then
      Ok(Controller(e.typeLabel, e.filename, e.isAbstract, e.baseClass, endpoints, []))
    else
      var link := SourceLink(repo, e.modelFilename);
      if link.Failed? then Failed(link.abort)
      else Ok(Controller(e.typeLabel, e.filename, e.isAbstract, e.baseClass, endpoints, [Use("model", link.value, Base(e.modelFilename))]))
  }

  /** A controller has exactly one `model` use when its endpoint 0 names a model file, and none otherwise. */
  lemma ModelUseIffModelFile(repo: string, endpoints: seq<Endpoint>)
    requires |endpoints| > 0 && ControllerOf(repo, endpoints).Ok?
    ensures var uses := ControllerOf(repo, endpoints).value.uses;
      |uses| == (if endpoints[0].modelFilename != "" then 1 else 0)
      && forall u :: u in uses ==> u.kind == "model"
  {
  }

  /** The record of one controller: its fields from endpoint 0, and the `model` use linked with `sourceURL`. */
  method ControllerRecord(repo: string, controller: seq<Endpoint>) returns (r: Result<Controller>)
    requires |controller| > 0
    ensures r == ControllerOf(repo, controller)
  {
    var e := controller[0];
    var uses: seq<Use> := [];
    if e.modelFilename != "" {
      var link := SourceURL(repo, e.modelFilename);
      if link.Failed? {
        return Failed(link.abort);
      }
      uses := [Use("model", link.value, Base(e.modelFilename))];
    }
    return Ok(Controller(e.typeLabel, e.filename, e.isAbstract, e.baseClass, controller, uses));
  }

  /** The records of one module's lists, in walk order; the first failing link stops the generator. */
  method BuildTemplate(moduleName: string, controllers: seq<seq<Endpoint>>, repo: string) returns (r: Result<TemplateData>)
    requires forall t :: 0 <= t < |controllers| ==> |controllers[t]| > 0
    ensures r.Failed? <==> exists t :: 0 <= t < |controllers| && ControllerOf(repo, controllers[t]).Failed?
    ensures r.Ok? ==>
      && r.value.titleUnderline == Repeat('~', |moduleName|)
      && |r.value.controllers| == |controllers|
      && forall t :: 0 <= t < |controllers| ==> Ok(r.value.controllers[t]) == ControllerOf(repo, controllers[t])
  {
    var records: seq<Controller> := [];
    var t := 0;
    while t < |controllers|
      invariant 0 <= t <= |controllers|
      invariant |records| == t
      invariant forall u :: 0 <= u < t ==> Ok(records[u]) == ControllerOf(repo, controllers[u])
    {
      var payload := ControllerRecord(repo, controllers[t]);
      if payload.Failed? {
        return Failed(payload.abort);
      }
      records := records + [payload.value];
      t := t + 1;
    }
    return Ok(TemplateData(Repeat('~', |moduleName|), records));
  }
}
