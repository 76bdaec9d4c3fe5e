/**
 * src/MainDOMSource.js: a second copy of the DOM source. Its namespace
 * logic is that of src/DomSource.js; the difference is that it imports
 * `DocumentDOMSource`, a name src/DocumentDomSource.js does not export.
 * Strict ES module linking rejects that import and the module never loads;
 * the model follows the loose CommonJS-interop loading bundlers apply, where
 * the binding is `undefined` and `select('document')` throws a TypeError
 * when it calls it as a constructor.
 */
module MainDOMSources {
  import opened Wrappers
  import opened Namespaces
  import opened Dom
  import opened IsolateModules
  import opened FromEvent
  import opened EventDelegators
  import Isolate
  import DomSources

  const NotAConstructorMessage: string := "TypeError: DocumentDOMSource is not a constructor"

  datatype MainDOMSource = MainDOMSource(namespace: Namespace, isolateModule: IsolateModule, eventDelegator: EventDelegator, name: string)

  /** What `select` returns: a main source, or the body source (only its driver name is kept). */
  datatype MainSelected = Main(source: MainDOMSource) | BodySource(name: string)

  /** `select(selector)`. */
  function Select(src: MainDOMSource, selector: JsValue): (r: Result<MainSelected>)
    ensures !selector.Str? ==> r == Throw(DomSources.SelectMessage)
    ensures selector == Str("document") ==> r == Throw(NotAConstructorMessage)
    ensures selector == Str("body") <==> r == Ok(BodySource(src.name))
    ensures r.Ok? && r.value.Main? ==>
      && selector.Str? && selector.s != "document" && selector.s != "body"
      && r.value.source == src.(namespace := DomSources.ChildNamespace(src.namespace, selector.s))
  {
    if !selector.Str? then Throw(DomSources.SelectMessage)
    else if selector.s == "document" then Throw(NotAConstructorMessage)
    else if selector.s == "body" then Ok(BodySource(src.name))
    else Ok(Main(src.(namespace := DomSources.ChildNamespace(src.namespace, selector.s))))
  }

  /** `isolateSource(source, scope)`: the source's namespace followed by the scope's boundary. */
  function IsolateSource(source: MainDOMSource, scope: string): (r: MainDOMSource)
    ensures r.namespace == source.namespace + [Isolate.GetScopeObj(scope)]
    ensures r.isolateModule == source.isolateModule && r.eventDelegator == source.eventDelegator && r.name == source.name
  {
    source.(namespace := source.namespace + [Isolate.GetScopeObj(scope)])
  }

  /** The DOM source with the same namespace, module, delegator and name. */
  function AsDomSource(src: MainDOMSource): DomSources.DomSource {
    DomSources.DomSource(src.namespace, src.isolateModule, src.eventDelegator, src.name)
  }

  /** `events(eventType, options = {}, bubbles)`: the same check and the same delegation as the DOM source. */
  method Events(src: MainDOMSource, eventType: JsValue, options: Option<Options>, bubbles: Option<bool>, d: Document)
    returns (r: Result<Stream>)
    requires WellFormed(d)
    modifies src.eventDelegator, src.eventDelegator.virtualListeners
    ensures !eventType.Str? ==> r == Throw(DomSources.EventsMessage) && src.eventDelegator.State() == old(src.eventDelegator.State())
    ensures eventType.Str? ==>
      (src.eventDelegator.State(), r)
        == AddListener(old(src.eventDelegator.State()), eventType.s, src.namespace, DomSources.OptionsOrDefault(options), bubbles,
                       src.eventDelegator.isolateModule.Snapshot(), d)
  {
    if !eventType.Str? {
      return Throw(DomSources.EventsMessage);
    }
    r := src.eventDelegator.AddEventListener(eventType.s, src.namespace, DomSources.OptionsOrDefault(options), bubbles, d);
  }

  // ---------------------------------------------------------------------
  // Properties

  /**
   * The two copies agree on every selector but `'document'`: same error for
   * a non-string, same namespace for a scoped result, the body source for
   * `'body'`. On `'document'` the DOM source answers the document source and
   * this copy throws.
   */
  lemma SelectAgreesWithDomSource(src: MainDOMSource, selector: JsValue)
    ensures var main := Select(src, selector);
            var dom := DomSources.Select(AsDomSource(src), selector);
      && (selector != Str("document") ==>
            && (main.Throw? <==> dom.Throw?)
            && (main.Throw? ==> main.message == dom.message)
            && (main.Ok? && main.value.Main? <==> dom.Ok? && dom.value.Scoped?)
            && (main.Ok? && main.value.Main? ==> AsDomSource(main.value.source) == dom.value.source)
            && (main.Ok? && main.value.BodySource? <==> dom.Ok? && dom.value.BodySource?))
      && (selector == Str("document") ==> main.Throw? && dom == Ok(DomSources.DocumentSource(src.name)))
  {
  }

  /** `isolateSource` of this copy is that of the DOM source. */
  lemma IsolateSourceAgrees(src: MainDOMSource, scope: string)
    ensures AsDomSource(IsolateSource(src, scope)) == DomSources.IsolateSource(AsDomSource(src), scope)
  {
  }
}
