# 4minitz Topic model in Dafny

This project models the topic document of the 4minitz meeting-minutes
application. A topic belongs to one set of minutes. It wraps a mutable topic
document that has a subject, an `isOpen` flag, an `isNew` flag and an ordered
list of info items. An info item is either a plain discussion note or an
action item. Only an action item carries an open/closed flag.

The implementation file `imports/topic.js` is not part of this model. The
behaviour modelled here is the behaviour that `tests/unit/imports/Topic.test.js`
fixes for it: constructor defaults, `getDocument`, `toggleState`,
`upsertInfoItem`, `findInfoItem`, `removeInfoItem`, `tailorTopic`, `save`, the
two static helpers `findTopicIndexInArray` and `hasOpenActionItem`, and the
counter that the test installs in place of `Random.id`.

Files:

- `wrappers.dfy`: `Option`, which stands for a field that may be `undefined`.
- `ids.dfy`: `Id` and `IdGen`. An `Id` is either one the counter issued or a
  string key a caller supplied. `IdGen` is the counter: it starts at 1 and
  returns its value before incrementing it.
- `info_items.dfy`: the info-item document (`Kind` is `Discussion` or
  `Action(isOpen)`). It also holds the operations on the item sequence as pure
  functions: lookup by id, upsert, removal and tailoring. The lemmas about them
  are here too.
- `topic.dfy`: the mutable `TopicDoc`, the parent `Minutes` and the `Topic`
  class. `Minutes` keeps a ghost log of the documents its upsert-topic hook
  received. `Topic`'s methods change the document in place. Each method is
  specified by the pure functions above. `Topic.Valid()` is the class
  invariant: both flags are set, item ids are unique, and every counter id in
  the topic was already issued.
- `topic_scenarios.dfy`: each unit test, replayed against the contracts. Each
  method asserts what its test expects.

## Model

| member | source | states |
|---|---|---|
| `Ids.IdGen.constructor` | tests/unit/imports/Topic.test.js:21-22 | the generator's counter starts at 1 |
| `Ids.IdGen.NewId` | tests/unit/imports/Topic.test.js:23-25 | returns the counter's current value as a generated id and increments the counter, so every later id is strictly greater and this one counts as issued |
| `Topics.TopicDoc.constructor` | tests/unit/imports/Topic.test.js:40-43 | a document as a caller writes it: the subject and items it is given, no id, and neither flag set |
| `Topics.Minutes.constructor` | tests/unit/imports/Topic.test.js:12-15 | the parent minutes have the given id, and their hook has not been called yet |
| `Topics.Minutes.UpsertTopic` | tests/unit/imports/Topic.test.js:14 | the upsert-topic hook appends exactly the document it was handed to its call log |
| `Topics.Topic.constructor` | tests/unit/imports/Topic.test.js:49-71 | the parent is exactly the minutes object supplied; the document is the very object passed in; a missing `isOpen` or `isNew` becomes true and a present one is kept; id, subject and items are unchanged; the invariant holds |
| `Topics.Topic.GetDocument` | tests/unit/imports/Topic.test.js:266-270 | returns the same document object the topic was constructed with, not a copy |
| `Topics.Topic.GetInfoItems` | tests/unit/imports/Topic.test.js:137-143 | returns the document's current item sequence |
| `Topics.Topic.FindTopicIndexInArray` | tests/unit/imports/Topic.test.js:73-77 | returns the first position whose document id equals the queried id, where an absent id matches an absent one; returns None exactly when no document has that id |
| `InfoItems.AnyOpenActionItem` | tests/unit/imports/Topic.test.js:79-99 | true exactly when some item is an action item whose flag is true |
| `Topics.Topic.HasOpenActionItem` | tests/unit/imports/Topic.test.js:79-99 | the static form: true exactly when some item of the given document is an open action item, so false for no items and for only closed ones |
| `Topics.Topic.InstanceHasOpenActionItem` | tests/unit/imports/Topic.test.js:101-108 | the instance form agrees with the static form on the topic's own document |
| `Topics.Topic.ToggleState` | tests/unit/imports/Topic.test.js:112-122 | `isOpen` becomes the other boolean; nothing else in the document changes; the invariant is kept |
| `InfoItems.IndexOfItem` | tests/unit/imports/Topic.test.js:162-182 | returns the first position holding the id; returns None exactly when no item has it |
| `Topics.Topic.FindInfoItem` | tests/unit/imports/Topic.test.js:162-182 | returns an item of the topic carrying the id; returns None exactly when no item carries it |
| `Topics.Topic.FindInfoItemIsTheOnlyOne` | tests/unit/imports/Topic.test.js:177-181 | while the topic's invariant holds, looking up the id of any stored item returns exactly that item, since no other item shares its id |
| `Topics.Topic.UpsertInfoItem` | tests/unit/imports/Topic.test.js:124-160 | the items become the upsert of the old items. An item without an id is stored under the next generated id, and only then does the counter advance. Afterwards the stored item is found under the returned id. The flags, id and subject are unchanged, and the invariant is kept |
| `InfoItems.UpsertCount` | tests/unit/imports/Topic.test.js:137-157 | the count grows by one exactly when the item has no id or an id no item has, and stays the same otherwise |
| `InfoItems.UpsertInsert` | tests/unit/imports/Topic.test.js:137-143 | a new item is added after the existing items, which stay as they were; it keeps its subject and carries its own id, or the fresh id when it had none |
| `InfoItems.UpsertUpdate` | tests/unit/imports/Topic.test.js:145-157 | re-upserting an item with a present id keeps the count and the id, installs the new document (and subject) at the old position, and leaves every other item alone |
| `InfoItems.UpsertThenFind` | tests/unit/imports/Topic.test.js:162-182 | after an upsert, looking up the stored item's id finds exactly the stored item, provided a fresh id is new to the topic |
| `InfoItems.UpsertKeepsWellKeyed` | tests/unit/imports/Topic.test.js:145-157 | upsert never duplicates an id: unique ids stay unique, and generated ids stay below the counter, which moves past a fresh id it hands out |
| `Topics.Topic.RemoveInfoItem` | tests/unit/imports/Topic.test.js:184-216 | the items become those with the id removed; afterwards no item has that id; the flags, id and subject are unchanged; the invariant is kept |
| `InfoItems.RemoveEffect` | tests/unit/imports/Topic.test.js:198-214 | removing a present id shrinks the count by exactly one, keeps the items before it in place, shifts the later ones down by one and leaves no item with that id; removing an absent id changes nothing |
| `InfoItems.RemoveKeepsWellKeyed` | tests/unit/imports/Topic.test.js:184-216 | removal keeps ids unique and generated ids below the counter |
| `InfoItems.RemoveUndoesInsert` | tests/unit/imports/Topic.test.js:198-214 | removing the id under which an insert stored a new item gives back the items as they were before the insert |
| `Topics.Topic.TailorTopic` | tests/unit/imports/Topic.test.js:218-249 | the items become the tailoring of the old items: an item remains exactly when it was there and is an open action item; the flags, id and subject are unchanged; the invariant is kept |
| `InfoItems.TailoredContents` | tests/unit/imports/Topic.test.js:237-247 | tailoring keeps exactly the open action items, each as often as it occurred, and drops plain items and closed action items |
| `InfoItems.TailoredAppend` | tests/unit/imports/Topic.test.js:218-249 | tailoring decides item by item and keeps the order: it distributes over concatenation |
| `InfoItems.TailoredIdempotent` | tests/unit/imports/Topic.test.js:218-249 | tailoring an already tailored sequence changes nothing |
| `InfoItems.TailoredKeepsOpenActionItems` | tests/unit/imports/Topic.test.js:79-110 | a topic has an open action item exactly when tailoring leaves at least one item, and tailoring keeps that answer the same |
| `InfoItems.TailoredKeepsWellKeyed` | tests/unit/imports/Topic.test.js:218-249 | tailoring keeps ids unique and generated ids below the counter |
| `TopicScenarios.TailorThreeItems` | tests/unit/imports/Topic.test.js:223-247 | a plain item, a closed action item and an open action item tailor to the open one alone |
| `Topics.Topic.Save` | tests/unit/imports/Topic.test.js:251-264 | the parent's upsert-topic hook is called exactly once, with the topic's own document as its argument, and nothing else in the log changes |

## Left out

- The minutes lookup (`Minutes.findOne`, tests/unit/imports/Topic.test.js:17-19) is not modelled. The topic receives its parent object directly, and the failing-lookup error path is not represented.
- `createdAt` is carried as an opaque optional number. Defaulting it from a clock when absent is not modelled: every test supplies it or leaves it absent.
- An absent item subject is modelled as the empty string.
- A topic document without an `infoItems` list cannot be represented: `TopicDoc.infoItems` is always a sequence, so a missing list is treated as an empty one.
- `findInfoItem` returns the stored document itself, not an `InfoItem` wrapper object around it. The wrapper's own behaviour is not part of this model.
- Item documents are values. The update test edits the stored item object in place through the array `getInfoItems()` returned, then upserts that same object again (tests/unit/imports/Topic.test.js:149-152); sharing of that object between caller and topic is not modelled. In the model the caller passes a changed copy instead, and `UpsertInfoItem` returns the id it stored. If the implementation also writes a new `_id` onto the caller's object, that effect is not captured either.
- Where a new item lands: the tests do not fix it. The model appends. Only membership and count are what the tests check.
- JavaScript truthiness of ids is not modelled. If the implementation tests for an id with a truthiness check, an empty-string `_id` would count as absent there; in the model only a missing id does.
- Topics.Topic.constructor: requires the incoming document to have unique item ids, with every generated id already issued by the counter. No test supplies a document that breaks this (every test document's items have no ids), and nothing in the tests shows the topic checking it.
- Topics.Topic.UpsertInfoItem: requires a generated id supplied by the caller to have been issued already. Callers obtain such ids only from the counter, so a future counter value cannot collide with an existing item.
- Topics.Topic.Save: failures of the parent's hook are not modelled. The hook here only records its argument, and persistence itself is outside the model.
- The parent reference is not serialized by `getDocument`. The model keeps the reference outside the document, so the property holds by construction and is not stated.
- `client/router.js` (routes, templates, e-mail verification) and `imports/services/topicsFinder.js` (a collection query) are framework glue and a foreign database call, so they are not modelled.
