/**
 * Template start-up and lookup (src/templates/registry/initTemplates.ts):
 * `initializeTemplates` registers the dark template in the shared registry,
 * and `useTemplate` looks a template up, throwing when the id is unknown.
 * The shared registry instance is passed in; the thrown error is a Failure.
 */
module InitTemplates {
  import opened Wrappers
  import opened TemplateRegistry

  /** The id of the built-in template (src/templates/presets/darkTemplate.tsx). */
  const DarkTemplateId := "dark-template"

  /** The dark template: its metadata and its text-valued default props. */
  const DarkTemplate := Template(
    TemplateMetadata(
      DarkTemplateId,
      "Dark Mode Template",
      "A modern dark mode template with scroll to top functionality",
      "general",
      None),
    "EditablePageTemplate",
    map["title" := "우리집 스마트 가계부",
        "description" := "Your Personal Finance Partner",
        "className" := "min-h-screen bg-gray-900 flex flex-col"])

  /** The message `useTemplate` throws; the id appears in it after the 17-character opening words. */
  function NotFoundMessage(id: string): (msg: string)
    ensures |msg| == |id| + 27 && msg[17..17 + |id|] == id
  {
    var msg := "Template with id " + id + " not found";
    assert msg[17..17 + |id|] == id;
    msg
  }

  /** `useTemplate`: the registered template, or the not-found error naming the id. */
  function UseTemplate(registry: TemplateRegistry, id: string): (r: Result<Template, string>)
    requires registry.Valid()
    reads registry
    ensures r.Success? <==> registry.GetTemplate(id).Some?
    ensures r.Success? ==> r.value == registry.GetTemplate(id).value && r.value.metadata.id == id
    ensures r.Failure? ==> r.error == NotFoundMessage(id)
  {
    match registry.GetTemplate(id)
    case Some(t) => Success(t)
    case None => Failure(NotFoundMessage(id))
  }

  /**
   * `initializeTemplates`: registers the dark template; afterwards
   * `useTemplate("dark-template")` gives it back and nothing else changes.
   */
  method InitializeTemplates(registry: TemplateRegistry)
    requires registry.Valid()
    modifies registry
    ensures registry.Valid()
    ensures registry.templates == MapSet(old(registry.templates), DarkTemplateId, DarkTemplate)
    ensures UseTemplate(registry, DarkTemplateId) == Success(DarkTemplate)
  {
    registry.RegisterTemplate(DarkTemplate);
    MapSetGet(old(registry.templates), DarkTemplateId, DarkTemplate, DarkTemplateId);
  }

  /** Initializing a fresh registry twice leaves exactly one template, the dark one. */
  method InitializeTwice() returns (all: seq<Template>)
    ensures all == [DarkTemplate]
  {
    var registry := new TemplateRegistry();
    InitializeTemplates(registry);
    InitializeTemplates(registry);
    MapSetTwice(EmptyMap(), DarkTemplateId, DarkTemplate);
    MapSetValues(EmptyMap(), DarkTemplateId, DarkTemplate);
    all := registry.GetAllTemplates();
  }

  /** Initializing is idempotent on any registry: a second call changes nothing. */
  lemma InitializeIdempotent(m: JsMap)
    ensures MapSet(MapSet(m, DarkTemplateId, DarkTemplate), DarkTemplateId, DarkTemplate)
         == MapSet(m, DarkTemplateId, DarkTemplate)
  {
    MapSetTwice(m, DarkTemplateId, DarkTemplate);
  }
}
