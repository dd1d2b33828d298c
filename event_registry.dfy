/** `EventRegistry` (content.js): the listeners the logger installs, keyed by
    event name and handler id so that the same handler is bound to an event
    at most once, and torn down all together. */
module EventRegistry {

  /** Where a listener is installed. */
  datatype Target = Document | Window

  /** A character `Math.random().toString(36)` writes after "0.": a base-36
      digit. */
  predicate IsBase36Digit(c: char)
  {
    '0' <= c <= '9' || 'a' <= c <= 'z'
  }

  /** A handler id: `Math.random().toString(36).slice(2)`, a run of base-36
      digits. The empty string is the unset, falsy id. */
  type HandlerId = s: string | forall k :: 0 <= k < |s| ==> IsBase36Digit(s[k])

  /** A handler function; the registry stamps it with an id the first time
      it sees it (`fn.__loggerId`). */
  class Handler {
    var loggerId: HandlerId

    constructor ()
      ensures loggerId == ""
    {
      loggerId := "";
    }
  }

  /** What the registry remembers about one installed listener. */
  datatype Binding = Binding(target: Target, evName: string, fn: Handler, opts: bool)

  /** The dedupe key: the event name and the handler id joined by "::".
      The target and the options are not part of it. */
  function Key(evName: string, id: HandlerId): string
  {
    evName + "::" + id
  }

  /** A key never equals one whose event name is longer: the longer name's
      "::" would have to fall inside the shorter key's id, which holds no
      ':'. */
  lemma LongerNameDiffers(e1: string, id1: HandlerId, e2: string, id2: HandlerId)
    requires |e1| < |e2|
    ensures Key(e1, id1) != Key(e2, id2)
  {
    var p := |e2| + 1;
    assert Key(e2, id2)[p] == ':';
    if p < |Key(e1, id1)| {
      assert Key(e1, id1)[p] == id1[p - |e1| - 2];
      assert IsBase36Digit(id1[p - |e1| - 2]);
    }
  }

  /** Keys determine the event name and the handler id they were built from,
      whatever the event name holds, since ids hold no ':'. So a handler is
      refused only when it is already bound to that very event. */
  lemma KeyInjective(e1: string, id1: HandlerId, e2: string, id2: HandlerId)
    ensures Key(e1, id1) == Key(e2, id2) <==> e1 == e2 && id1 == id2
  {
    if |e1| < |e2| {
      LongerNameDiffers(e1, id1, e2, id2);
    } else if |e2| < |e1| {
      LongerNameDiffers(e2, id2, e1, id1);
    } else if Key(e1, id1) == Key(e2, id2) {
      var k := Key(e1, id1);
      assert e1 == k[..|e1|] == e2;
      assert id1 == k[|e1| + 2..] == id2;
    }
  }

  class Registry {
    /** The binding map: key to binding. */
    var bindings: map<string, Binding>

    constructor ()
      ensures bindings == map[]
    {
      bindings := map[];
    }

    /** Binds `fn` to `evName` on `target` unless a binding with the same key
        exists. A handler without an id is given `freshId` first, whatever the
        outcome. `addEventListener` failures are swallowed, so they do not
        show here: a new key is always recorded and reported as added. */
    method Add(target: Target, evName: string, fn: Handler, opts: bool, freshId: HandlerId) returns (added: bool)
      modifies this, fn
      ensures fn.loggerId == if old(fn.loggerId) != "" then old(fn.loggerId) else freshId
      ensures added <==> Key(evName, fn.loggerId) !in old(bindings)
      ensures added ==> bindings == old(bindings)[Key(evName, fn.loggerId) := Binding(target, evName, fn, opts)]
      ensures !added ==> bindings == old(bindings)
    {
      if fn.loggerId == "" {
        fn.loggerId := freshId;
      }
      var k := Key(evName, fn.loggerId);
      if k in bindings {
        return false;
      }
      bindings := bindings[k := Binding(target, evName, fn, opts)];
      return true;
    }

    /** Unbinds every listener and forgets them all. */
    method RemoveAll()
      modifies this
      ensures bindings == map[]
    {
      bindings := map[];
    }
  }
}
