/** The notification template reconciler: one `Reconcile` call per change
    notification, issuing ordered update/create/delete calls on the store. */
module Reconciliation {
  import opened Templates
  import opened Client

  /** The recreate branch applies to `t`: it is a deleted canonical template
      with a reason type, and the first live template listed for that reason
      type was created strictly after it. */
  ghost predicate RecreationDue(s: Store, t: Template)
  {
    t.deleted && IsCanonical(t.name) && ReasonOf(t).Some? &&
    exists e :: IsEarliestListed(s, ReasonOf(t).value, e) && e.creation > t.creation
  }

  /** The candidate branch on store `s` for template `t`: a non-canonical
      template with reason type `r` tombstones the canonical template of `r`
      when it was created strictly after it; nothing else is ever touched. */
  function CandidateOutcome(s: Store, t: Template): (s': Store)
    ensures s'.Keys == s.Keys
    ensures forall k :: k in s && (IsCanonical(t.name) || ReasonOf(t).None? || k != CanonicalName(ReasonOf(t).value))
                        ==> s'[k] == s[k]
    ensures !IsCanonical(t.name) && ReasonOf(t).Some? ==>
              var cn := CanonicalName(ReasonOf(t).value);
              cn in s ==> s'[cn] == (if t.creation > s[cn].creation then s[cn].(deleted := true) else s[cn])
  {
    if IsCanonical(t.name) then s
    else match ReasonOf(t)
      case None => s
      case Some(r) =>
        var cn := CanonicalName(r);
        if cn in s && t.creation > s[cn].creation then s[cn := s[cn].(deleted := true)] else s
  }

  /** The store `s'` is a possible result of reconciling `name` on store `s`
      at instant `now`. */
  ghost predicate Reconciled(s: Store, name: string, now: int, s': Store)
  {
    if name !in s then s' == s
    else if RecreationDue(s, s[name]) then
      exists e :: IsEarliestListed(s, ReasonOf(s[name]).value, e) && s' == s[name := Replacement(s[name], e).(creation := now)]
    else s' == CandidateOutcome(s, s[name])
  }

  class NotificationTemplateReconciler {
    const client: ExtensionClient

    constructor (client: ExtensionClient)
      ensures this.client == client
    {
      this.client := client;
    }

    /** Reconciles the template named `name` at instant `now`, later than
        every stored creation time; the result is never a retry. */
    method Reconcile(name: string, now: int) returns (retry: bool)
      requires client.Valid() && CreatedBefore(client.store, now)
      modifies client
      ensures client.Valid()
      ensures !retry
      ensures Reconciled(old(client.store), name, now, client.store)
    {
      var fetched := client.Fetch(name);
      if fetched.Some? {
        var t := fetched.value;
        var isPrefix := IsCanonical(t.name);
        if t.deleted {
          client.Update(t);
          assert client.store == old(client.store);
          if isPrefix {
            var reason := ReasonOf(t);
            if reason.Some? {
              var earliest := client.EarliestListed(reason.value);
              if earliest.Some? {
                var first := earliest.value;
                if first.creation > t.creation {
                  var created := first;
                  created := created.(name := t.name);
                  created := created.(content := created.content.(htmlBody := t.content.htmlBody));
                  assert created == Replacement(t, first);
                  client.Create(created, now);
                  retry := false;
                  return;
                } else {
                  forall e | IsEarliestListed(client.store, reason.value, e) ensures e.creation <= t.creation {
                    EarliestCreationUnique(client.store, reason.value, e, first);
                  }
                }
              }
            }
          }
        }
        if !isPrefix {
          var reason := ReasonOf(t);
          if reason.Some? {
            var canonicalName := CanonicalName(reason.value);
            var one := client.Fetch(canonicalName);
            if one.Some? {
              if t.creation > one.value.creation {
                client.Delete(one.value);
              }
            }
          }
        }
      }
      retry := false;
    }
  }
}
