/** `GracerPlugin.on_document_load`: the per-view state that attaches the completion
    provider and the context-menu hook to Rust documents and detaches them otherwise.
    The view is modelled by what the plugin registers with it. */
module Lifecycle {
  import opened Common
  import RacerClient

  /** `GracerCompletionProvider`, holding the racer instance all views share. */
  class Provider {
    const racer: RacerClient.Racer

    constructor (racer: RacerClient.Racer)
      ensures this.racer == racer
    {
      this.racer := racer;
    }
  }

  /** A GTK view: its completion providers and its `populate-popup` handler ids. */
  class View {
    var providers: seq<Provider>
    var handlers: seq<nat>
    /** The id the next `connect` hands out. */
    var nextHandlerId: nat

    constructor ()
      ensures providers == [] && handlers == [] && nextHandlerId == 1
    {
      providers := [];
      handlers := [];
      nextHandlerId := 1;
    }

    /** `get_completion().add_provider(p)`. */
    method AddProvider(p: Provider)
      modifies this`providers
      ensures providers == old(providers) + [p]
    {
      providers := providers + [p];
    }

    /** `get_completion().remove_provider(p)`. */
    method RemoveProvider(p: Provider)
      modifies this`providers
      ensures providers == Without(old(providers), p)
    {
      providers := Without(providers, p);
    }

    /** `connect('populate-popup', ...)`: a fresh handler id. */
    method Connect() returns (id: nat)
      modifies this`handlers, this`nextHandlerId
      ensures id == old(nextHandlerId) && nextHandlerId == old(nextHandlerId) + 1
      ensures handlers == old(handlers) + [id]
    {
      id := nextHandlerId;
      handlers := handlers + [id];
      nextHandlerId := nextHandlerId + 1;
    }

    /** `disconnect(id)`. */
    method Disconnect(id: nat)
      modifies this`handlers
      ensures handlers == Without(old(handlers), id)
    {
      handlers := Without(handlers, id);
    }
  }

  function Without<T(==)>(s: seq<T>, x: T): (r: seq<T>)
    ensures x !in r
    ensures forall y :: y in s && y != x ==> y in r
    ensures |r| <= |s|
  {
    if s == [] then [] else (if s[0] == x then [] else [s[0]]) + Without(s[1..], x)
  }

  predicate IsRust(language: Option<string>) {
    language == Some("rust")
  }

  class Plugin {
    const view: View
    const racer: RacerClient.Racer
    var completionProvider: Provider?
    var popupHandler: Option<nat>

    /** The view holds exactly what the plugin has registered, and the provider and the
        hook are present together. */
    ghost predicate Valid()
      reads this, view
    {
      && view.providers == (if completionProvider == null then [] else [completionProvider])
      && view.handlers == (if popupHandler.None? then [] else [popupHandler.value])
      && (completionProvider == null <==> popupHandler.None?)
      && (popupHandler.Some? ==> popupHandler.value < view.nextHandlerId)
    }

    predicate Attached()
      reads this
    {
      completionProvider != null
    }

    constructor (view: View, racer: RacerClient.Racer)
      requires view.providers == [] && view.handlers == []
      ensures this.view == view && this.racer == racer
      ensures Valid() && !Attached()
    {
      this.view := view;
      this.racer := racer;
      completionProvider := null;
      popupHandler := None;
    }

    /** `on_document_load`: a Rust document attaches what is missing, any other
        document detaches what is present. */
    method OnDocumentLoad(language: Option<string>)
      requires Valid()
      modifies this, view
      ensures Valid()
      ensures Attached() <==> IsRust(language)
      ensures |view.providers| <= 1 && |view.handlers| <= 1
      ensures old(Attached()) == Attached() ==>
        completionProvider == old(completionProvider) && popupHandler == old(popupHandler) &&
        view.nextHandlerId == old(view.nextHandlerId)
      ensures !old(Attached()) && Attached() ==>
        fresh(completionProvider) && completionProvider.racer == racer &&
        view.nextHandlerId == old(view.nextHandlerId) + 1
      ensures old(Attached()) && !Attached() ==> view.nextHandlerId == old(view.nextHandlerId)
    {
      if language.Some? && language.value == "rust" {
        if completionProvider == null {
          completionProvider := new Provider(racer);
          view.AddProvider(completionProvider);
        }
        if popupHandler.None? {
          var id := view.Connect();
          popupHandler := Some(id);
        }
      } else {
        if completionProvider != null {
          view.RemoveProvider(completionProvider);
          completionProvider := null;
        }
        if popupHandler.Some? {
          view.Disconnect(popupHandler.value);
          popupHandler := None;
        }
      }
    }
  }

  /** How many loads find the plugin detached and attach it: a Rust load that is the first
      or follows a non-Rust one. */
  function Attachments(languages: seq<Option<string>>): nat {
    if languages == [] then 0
    else
      var n := |languages| - 1;
      Attachments(languages[..n]) +
        (if IsRust(languages[n]) && (n == 0 || !IsRust(languages[n - 1])) then 1 else 0)
  }

  /** Activation (`do_activate` runs `on_document_load` once) followed by the document's
      later loads: the provider is attached exactly when the last load was a Rust one,
      never more than one provider or hook is registered, and a hook is connected only
      on a detached-to-Rust transition. */
  method LoadSequence(languages: seq<Option<string>>) returns (attached: bool, providers: nat, hooks: nat, connections: nat)
    ensures attached <==> |languages| > 0 && IsRust(languages[|languages| - 1])
    ensures providers == hooks == (if attached then 1 else 0)
    ensures connections == Attachments(languages)
  {
    var view := new View();
    var racer := new RacerClient.Racer();
    var plugin := new Plugin(view, racer);
    for i := 0 to |languages|
      invariant plugin.view == view && plugin.Valid()
      invariant plugin.Attached() <==> i > 0 && IsRust(languages[i - 1])
      invariant view.nextHandlerId == 1 + Attachments(languages[..i])
    {
      assert languages[..i + 1][..i] == languages[..i];
      plugin.OnDocumentLoad(languages[i]);
    }
    assert languages[..|languages|] == languages;
    attached := plugin.Attached();
    providers := |view.providers|;
    hooks := |view.handlers|;
    connections := view.nextHandlerId - 1;
  }
}
