/** `exception_handler_class`: the nesting chain of a command class, from
    `Object` through each enclosing module to the class itself, is searched
    from the innermost scope outwards for one that provides an exception
    handler class. */
module HandlerResolution {
  import opened Wrappers

  /** An exception handler class, by its fully qualified name. */
  type HandlerClass = string

  /** The tool-wide handler used when no scope provides one. */
  const DefaultHandler: HandlerClass := "HammerCLI::ExceptionHandler"

  /** `scopes[i]` is what the i-th scope of the nesting chain answers:
      `Some(h)` when it responds to `exception_handler_class` with `h`,
      `None` when it does not respond to it. */
  type Scopes = seq<Option<HandlerClass>>

  /** Scope `i` provides a handler and no scope nested inside it does. */
  ghost predicate InnermostProvider(scopes: Scopes, i: int) {
    0 <= i < |scopes| && scopes[i].Some? &&
    forall j | i < j < |scopes| :: scopes[j].None?
  }

  /** The handler of the innermost scope that provides one, the default when
      none does. */
  function Nearest(scopes: Scopes): HandlerClass {
    if scopes == [] then DefaultHandler
    else
      match scopes[|scopes| - 1]
      case Some(handler) => handler
      case None => Nearest(scopes[..|scopes| - 1])
  }

  /** The default comes back exactly when no scope provides a handler, and
      otherwise the handler of a scope with no provider nested inside it. */
  lemma {:induction false} NearestSpec(scopes: Scopes)
    ensures (forall i | 0 <= i < |scopes| :: scopes[i].None?) ==> Nearest(scopes) == DefaultHandler
    ensures (exists i | 0 <= i < |scopes| :: scopes[i].Some?) ==>
              exists i :: InnermostProvider(scopes, i) && scopes[i] == Some(Nearest(scopes))
  {
    if scopes != [] {
      var last := |scopes| - 1;
      if scopes[last].Some? {
        assert InnermostProvider(scopes, last);
      } else {
        var prefix := scopes[..last];
        NearestSpec(prefix);
        assert forall i | 0 <= i < last :: prefix[i] == scopes[i];
        if exists i | 0 <= i < |scopes| :: scopes[i].Some? {
          var k :| 0 <= k < |scopes| && scopes[k].Some?;
          assert prefix[k].Some?;
          var i :| InnermostProvider(prefix, i) && prefix[i] == Some(Nearest(prefix));
          assert InnermostProvider(scopes, i);
        }
      }
    }
  }

  /** The search as the source performs it: walk the reversed chain and
      return the first handler found, else the default. */
  method ExceptionHandlerClass(scopes: Scopes) returns (h: HandlerClass)
    ensures h == Nearest(scopes)
  {
    var i := |scopes|;
    assert scopes[..i] == scopes;
    while i > 0
      invariant 0 <= i <= |scopes|
      invariant forall j | i <= j < |scopes| :: scopes[j].None?
      invariant Nearest(scopes) == Nearest(scopes[..i])
    {
      if scopes[i - 1].Some? {
        return scopes[i - 1].value;
      }
      assert scopes[..i][..i - 1] == scopes[..i - 1];
      i := i - 1;
    }
    assert scopes[..0] == [];
    h := DefaultHandler;
  }

  /** Resolution is the nearest provider: a scope that provides a handler
      and has no provider nested inside it decides, whatever the outer
      scopes provide. */
  lemma {:induction false} NearestIsInnermost(scopes: Scopes, i: int)
    requires InnermostProvider(scopes, i)
    ensures Nearest(scopes) == scopes[i].value
  {
    if i < |scopes| - 1 {
      var last := |scopes| - 1;
      assert scopes[last].None?;
      assert InnermostProvider(scopes[..last], i);
      NearestIsInnermost(scopes[..last], i);
    }
  }

  /** Scopes outside a provider are never consulted: adding outer scopes in
      front of a chain that already provides a handler changes nothing. */
  lemma {:induction false} OuterScopesIgnored(outer: Scopes, inner: Scopes)
    requires exists i | 0 <= i < |inner| :: inner[i].Some?
    ensures Nearest(outer + inner) == Nearest(inner)
  {
    NearestSpec(inner);
    var i :| InnermostProvider(inner, i) && inner[i] == Some(Nearest(inner));
    assert InnermostProvider(outer + inner, |outer| + i);
    NearestIsInnermost(outer + inner, |outer| + i);
  }
}
