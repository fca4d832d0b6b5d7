/** Notification templates as values, the canonical naming rule, and the
    selection a store listing performs (live templates of one reason type,
    earliest creation first). */
module Templates {

  datatype Option<T> = None | Some(value: T)

  /** `spec.reasonSelector`: `reasonType` may be null (None) or empty. */
  datatype ReasonSelector = ReasonSelector(reasonType: Option<string>, language: string)

  /** `spec.template`: the content that a promotion carries between templates. */
  datatype Content = Content(title: string, htmlBody: string, rawBody: string)

  /** A notification template: `creation` is the creation timestamp as an
      instant on an integer time line, `deleted` the presence of a deletion
      timestamp (a tombstone), `selector` a possibly null reason selector. */
  datatype Template = Template(
    name: string,
    creation: int,
    deleted: bool,
    selector: Option<ReasonSelector>,
    content: Content)

  /** The template store, keyed by template name. */
  type Store = map<string, Template>

  /** Every template is stored under its own name. */
  ghost predicate WellKeyed(s: Store)
  {
    forall k :: k in s ==> s[k].name == k
  }

  /** Every stored template was created before instant `now`. */
  ghost predicate CreatedBefore(s: Store, now: int)
  {
    forall u :: u in s.Values ==> u.creation < now
  }

  /** Name prefix of canonical templates. */
  const Prefix: string := "template-one-"

  /** `name.startsWith(PREFIX)`. */
  predicate IsCanonical(name: string): (b: bool)
    ensures b <==> |Prefix| <= |name| && name == Prefix + name[|Prefix|..]
  {
    Prefix <= name
  }

  /** Name of the canonical template for reason type `r`. */
  function CanonicalName(r: string): (n: string)
    ensures IsCanonical(n)
    ensures |n| == |Prefix| + |r| && n[|Prefix|..] == r
  {
    Prefix + r
  }

  /** The reason type a template takes part under: the selector is non-null and
      its reason type is non-null and non-empty. */
  function ReasonOf(t: Template): (r: Option<string>)
    ensures r.Some? <==> t.selector.Some? && t.selector.value.reasonType.Some?
                         && t.selector.value.reasonType.value != ""
    ensures r.Some? ==> r.value != "" && t.selector.value.reasonType == Some(r.value)
  {
    match t.selector
    case None => None
    case Some(sel) =>
      match sel.reasonType
      case None => None
      case Some(r) => if r == "" then None else Some(r)
  }

  /** The field selector of the store listing: reason type equal to `r` and no
      deletion timestamp. */
  predicate Listed(t: Template, r: string): (b: bool)
    ensures r != "" ==> (b <==> !t.deleted && ReasonOf(t) == Some(r))
  {
    !t.deleted && t.selector.Some? && t.selector.value.reasonType == Some(r)
  }

  /** `t` is first in the listing of reason type `r` sorted by ascending
      creation time (any of several with the same earliest time). */
  predicate IsEarliestListed(s: Store, r: string, t: Template)
  {
    t in s.Values && Listed(t, r) &&
    forall u :: u in s.Values && Listed(u, r) ==> t.creation <= u.creation
  }

  /** A non-empty finite set of templates has one of least creation time. */
  lemma {:induction false} EarliestInSet(ts: set<Template>)
    requires ts != {}
    ensures exists t :: t in ts && forall u :: u in ts ==> t.creation <= u.creation
    decreases |ts|
  {
    var x :| x in ts;
    var rest := ts - {x};
    if rest == {} {
      assert ts == rest + {x};
    } else {
      EarliestInSet(rest);
      var m :| m in rest && forall u :: u in rest ==> m.creation <= u.creation;
      if x.creation <= m.creation {
        assert forall u :: u in ts ==> x.creation <= u.creation by {
          forall u | u in ts ensures x.creation <= u.creation {
            if u != x { assert u in rest; }
          }
        }
      } else {
        assert forall u :: u in ts ==> m.creation <= u.creation by {
          forall u | u in ts ensures m.creation <= u.creation {
            if u != x { assert u in rest; }
          }
        }
      }
    }
  }

  /** A listing that is not empty has a first element. */
  lemma EarliestListedExists(s: Store, r: string)
    requires exists u :: u in s.Values && Listed(u, r)
    ensures exists t :: IsEarliestListed(s, r, t)
  {
    var ts := set u | u in s.Values && Listed(u, r);
    var w :| w in s.Values && Listed(w, r);
    assert w in ts;
    EarliestInSet(ts);
    var t :| t in ts && forall u :: u in ts ==> t.creation <= u.creation;
    assert IsEarliestListed(s, r, t);
  }

  /** All first elements of one listing share the same creation time. */
  lemma EarliestCreationUnique(s: Store, r: string, t1: Template, t2: Template)
    requires IsEarliestListed(s, r, t1) && IsEarliestListed(s, r, t2)
    ensures t1.creation == t2.creation
  {
  }

  /** The record a deleted canonical `t` is recreated as from the earliest
      listed template `e`: a copy of `e` renamed to `t`'s name and carrying
      `t`'s html body. */
  function Replacement(t: Template, e: Template): (n: Template)
    ensures n.name == t.name && n.content.htmlBody == t.content.htmlBody
    ensures n.creation == e.creation && n.deleted == e.deleted && n.selector == e.selector
    ensures n.content.title == e.content.title && n.content.rawBody == e.content.rawBody
    ensures forall r :: Listed(e, r) ==> Listed(n, r)
  {
    e.(name := t.name, content := e.content.(htmlBody := t.content.htmlBody))
  }
}
