# Notification template reconciler

A model of the reconciler of the mail-template plugin for Halo. The plugin
installs "canonical" notification templates named `template-one-<reasonType>`
and lets users add their own "candidate" templates for the same reason type.
Each change notification calls `reconcile(name)`. That call fetches the
template and then does one of three things:

- a candidate (a name without the `template-one-` prefix) tombstones the
  canonical template of its reason type if the candidate was created strictly
  later;
- a deleted canonical template is first written back, and is then recreated
  from the earliest live template of its reason type, if that template is
  strictly newer. The new record keeps the canonical name and html body;
- anything else changes nothing.

The call never asks to be retried.

Files:

- `templates.dfy` (module `Templates`): the template record, the store (a
  map from name to template), the `template-one-` naming rule, the reason
  type test, and the listing filter with its earliest element.
- `extension_client.dfy` (module `Client`): class `ExtensionClient` holding
  the store, with `Fetch`, `Update`, `Create`, `Delete` and `EarliestListed`.
  `EarliestListed` stands for `listAll` sorted by creation time followed by
  `get(0)`.
- `reconciler.dfy` (module `Reconciliation`): class
  `NotificationTemplateReconciler` and its `Reconcile` method. The method
  issues the store calls in the source's order. It is proved against
  `Reconciled`, the relation between the store before and after one call.
- `properties.dfy` (module `ReconcileProperties`): lemmas about `Reconciled`.
  They cover each branch, idempotence under a duplicate notification, and the
  two possible outcomes of a promotion carried by two reconciles.

Modelling decisions:

- A creation timestamp is an `int`. `isAfter` is a strict `>`. The store's
  clock is a parameter `now` of `Reconcile`, later than every stored creation
  time; `create` stamps the new record with it, as the store does.
- A deletion timestamp is the flag `deleted`. `delete` sets the flag on the
  stored record, leaving a tombstone. `create` stores the record under its
  name. `update` at line 43 writes back the record just fetched, so the store
  does not change.
- The store sorts the listing by creation time only, and its order among
  templates with equal creation times is not specified. So `EarliestListed`
  returns some template of least creation time, and `Reconciled` is a
  relation rather than a function. Whether a recreation happens depends only
  on the least creation time (`RecreationIff`). When several templates share
  that time, the one copied is any of them.
- A deleted canonical template is recreated from the earliest live template
  of its reason type. There is no confirmation loop around `delete` or
  `create`; the only wait is a fixed 2 s sleep before `create`.

## Model

| member | source | states |
|---|---|---|
| Templates.CanonicalName | src/main/java/com/kunkunyu/template/mail/NotificationTemplateReconciler.java:87 | `PREFIX + reasonType` is a canonical name (starts with `template-one-`), and stripping the prefix gives the reason type back |
| Templates.IsCanonical | src/main/java/com/kunkunyu/template/mail/NotificationTemplateReconciler.java:38 | `name.startsWith(PREFIX)`: the name is at least as long as `template-one-` and is that prefix followed by the rest of the name |
| Templates.Listed | src/main/java/com/kunkunyu/template/mail/NotificationTemplateReconciler.java:52-57 | the listing's field selector (reason type equal to r, no deletion timestamp); for a non-empty r it admits exactly the live templates that take part under r |
| Templates.Replacement | src/main/java/com/kunkunyu/template/mail/NotificationTemplateReconciler.java:65-68 | the copy of the listed template e with the deleted template's name and html body; creation time, deletion mark, selector, title and raw body are e's, so a listed e gives a listed copy |
| Templates.ReasonOf | src/main/java/com/kunkunyu/template/mail/NotificationTemplateReconciler.java:84-86 | a template takes part exactly when its reason selector is non-null and its reason type is non-null and non-empty, and then under that reason type |
| Templates.EarliestInSet | src/main/java/com/kunkunyu/template/mail/NotificationTemplateReconciler.java:58-62 | any non-empty set of templates has one whose creation time is not later than any other's |
| Templates.EarliestListedExists | src/main/java/com/kunkunyu/template/mail/NotificationTemplateReconciler.java:61-62 | a non-empty listing of live templates of one reason type has a first element in creation order |
| Client.ExtensionClient.Fetch | src/main/java/com/kunkunyu/template/mail/NotificationTemplateReconciler.java:35 | `fetch` returns the record stored under the name, if there is one, and it carries that name; otherwise it returns nothing |
| Client.ExtensionClient.Update | src/main/java/com/kunkunyu/template/mail/NotificationTemplateReconciler.java:43 | `update` writes the record under its own name and changes nothing else |
| Client.ExtensionClient.Create | src/main/java/com/kunkunyu/template/mail/NotificationTemplateReconciler.java:75 | `create` stores the record under its name, stamped with the current instant as its creation time, which is later than every stored template's; nothing else changes |
| Client.ExtensionClient.Delete | src/main/java/com/kunkunyu/template/mail/NotificationTemplateReconciler.java:93 | `delete` sets only the deletion mark of the stored record; the set of names stays the same |
| Client.ExtensionClient.EarliestListed | src/main/java/com/kunkunyu/template/mail/NotificationTemplateReconciler.java:51-62 | the listing filtered on reason type and no deletion timestamp is empty exactly when the result is None; otherwise the result is a listed template with the least creation time |
| Reconciliation.CandidateOutcome | src/main/java/com/kunkunyu/template/mail/NotificationTemplateReconciler.java:83-98 | the candidate branch keeps the set of names, changes no record except `template-one-<r>`, and tombstones that record exactly when the candidate was created strictly after it |
| Reconciliation.NotificationTemplateReconciler.Reconcile | src/main/java/com/kunkunyu/template/mail/NotificationTemplateReconciler.java:34-101 | on normal completion returns do-not-retry, keeps every template under its own name, and leaves the store in a state that `Reconciled` allows from the old store at the instant `now` |
| ReconcileProperties.AbsentIsNoOp | src/main/java/com/kunkunyu/template/mail/NotificationTemplateReconciler.java:35-36 | reconciling a name that is not stored leaves the store unchanged |
| ReconcileProperties.LiveCanonicalIsNoOp | src/main/java/com/kunkunyu/template/mail/NotificationTemplateReconciler.java:38-83 | a live template whose name starts with `template-one-` changes nothing |
| ReconcileProperties.InertTemplateIsNoOp | src/main/java/com/kunkunyu/template/mail/NotificationTemplateReconciler.java:48-86 | a template with a null selector or a null or empty reason type changes nothing, deleted or not: both the test at lines 48-50 on the recreate side and the test at lines 84-86 on the candidate side stop it (the write-back stores what was read) |
| ReconcileProperties.CandidateBranch | src/main/java/com/kunkunyu/template/mail/NotificationTemplateReconciler.java:83-95 | for a non-canonical template with reason type r, deleted or not: no name is created, no record other than `template-one-r` changes, and that record only gains the deletion mark. The store changes iff the canonical exists, is live, and is strictly older than the candidate |
| ReconcileProperties.DeletedCandidateStillDeletes | src/main/java/com/kunkunyu/template/mail/NotificationTemplateReconciler.java:42-95 | a deleted candidate falls through past the write-back and still tombstones a live, strictly older canonical template |
| ReconcileProperties.RecreationIff | src/main/java/com/kunkunyu/template/mail/NotificationTemplateReconciler.java:47-64 | a deleted canonical with reason type r changes the store iff some live template of r exists and every live template of r is strictly newer; one older or equally old live template blocks it, whatever newer ones exist |
| ReconcileProperties.RecreationShape | src/main/java/com/kunkunyu/template/mail/NotificationTemplateReconciler.java:63-76 | a recreation rewrites exactly one record, under the deleted template's name. The record is live and keeps the deleted template's html body. Its selector, title and raw body come from a first listed template, which is strictly newer; its creation time is the instant of the `create`, later than every template's in the store |
| ReconcileProperties.ReconciledWellKeyed | src/main/java/com/kunkunyu/template/mail/NotificationTemplateReconciler.java:65-68 | after a reconcile every template is still stored under its own name, since the recreated copy is renamed to the deleted template's name |
| ReconcileProperties.ReconcileIdempotent | src/main/java/com/kunkunyu/template/mail/NotificationTemplateReconciler.java:34-101 | reconciling the same name twice in a row ends in the same store as reconciling it once |
| ReconcileProperties.PromotionCarriesCandidate | src/main/java/com/kunkunyu/template/mail/NotificationTemplateReconciler.java:42-98 | a strictly newer candidate b tombstones the canonical; reconciling the canonical then recreates it as a live record with b's selector, title and raw body, the instant of the `create` as creation time, and the old html body, provided all other live templates of the type are newer than b |
| ReconcileProperties.PromotionBlockedByOlderTemplate | src/main/java/com/kunkunyu/template/mail/NotificationTemplateReconciler.java:47-64 | after the same two reconciles, if another live template of the type is as old as the canonical or older, the canonical stays tombstoned and the second reconcile changes nothing |
| ReconcileProperties.RecreatedCanonicalStaysLive | src/main/java/com/kunkunyu/template/mail/NotificationTemplateReconciler.java:87-94 | after a recreation, reconciling any other template already in the store leaves the recreated canonical live and unchanged: no existing candidate is created after it |

## Left out

- The 2-second `Thread.sleep` before `create` and its `InterruptedException` handler (NotificationTemplateReconciler.java:69-74). They are timing only, so the create is immediate.
- `setupWith` (NotificationTemplateReconciler.java:105-110). It only registers the controller with the framework.
- Extension client internals: field indexes, `Sort`, versions, finalizers, and the physical removal of tombstones. Also left out is any metadata the server assigns on `create` other than the creation timestamp, and the conflict a real `create` raises while a tombstone with the same name is still stored. In the model, `create` overwrites the tombstone; in the source the conflict is thrown out of `reconcile`.
- The shallow `BeanUtils.copyProperties` at line 66 makes the new record share its metadata and spec objects with the listed template. The model copies it as a value, because the listed template is never written back.
- Concurrent or interleaved `reconcile` calls, and the delivery of notifications. Each call is atomic in the model.
- MailTemplateServiceImpl.java, MailTemplateEndpoint.java and MailTemplatePlugin.java, and the UI files under ui/src. They are not part of this model. They are reactive calls into Halo's notification centre, HTTP routing, plugin start and stop, and TypeScript UI plumbing.
- Client.ExtensionClient.EarliestListed: it does not say which template of least creation time is chosen when several share that time, because the store's sort does not say either.
- Reconciliation.NotificationTemplateReconciler.Reconcile: `!retry` covers normal completion only. A null `spec` (lines 48 and 84), a null `spec.template` on the deleted canonical or the listed template (line 68), or a failing `create` or `delete` throws out of `reconcile`, and the controller then re-queues the request. The model's templates always have a spec and a template, and its store calls never fail.
